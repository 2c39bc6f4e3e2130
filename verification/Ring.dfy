/** The circular doubly linked list (kernel/src/util/storage.hh, LinkedList). */
module Ring {
  import opened Machine

  class Link<T> {
    var prev: Link?<T>
    var next: Link?<T>
    var data: T
    var last: bool

    constructor (prev: Link?<T>, next: Link?<T>, data: T)
      ensures this.prev == prev && this.next == next && this.data == data && !last
    {
      this.prev, this.next, this.data, this.last := prev, next, data, false;
    }
  }

  predicate Distinct<T>(ring: seq<Link<T>>) {
    forall i, j :: 0 <= i < j < |ring| ==> ring[i] != ring[j]
  }

  function Succ(i: nat, n: nat): (r: nat)
    requires i < n
    ensures r < n
  {
    if i + 1 == n then 0 else i + 1
  }

  function Pred(i: nat, n: nat): (r: nat)
    requires i < n
    ensures r < n && Succ(r, n) == i
  {
    if i == 0 then n - 1 else i - 1
  }

  /** Position i of the ring points to its neighbours. */
  predicate NodeOk<T>(ring: seq<Link<T>>, i: int)
    requires 0 <= i < |ring|
    reads ring[i]
  {
    ring[i].next == ring[Succ(i, |ring|)] && ring[i].prev == ring[Pred(i, |ring|)]
  }

  predicate Closed<T>(ring: seq<Link<T>>)
    reads ring
  {
    Distinct(ring) && forall i :: 0 <= i < |ring| ==> NodeOk(ring, i)
  }

  function Removed<T>(ring: seq<T>, k: nat): seq<T>
    requires k < |ring|
  {
    ring[..k] + ring[k + 1..]
  }

  /** What a node holds besides its links. */
  datatype Item<T> = Item(data: T, last: bool)

  class LinkedList<T> {
    var first: Link?<T>
    var size: nat
    ghost var ring: seq<Link<T>>   // the nodes, starting at `first`

    /** Following `next` from `first` visits the nodes of `ring` and comes back; `prev` goes the other way. */
    ghost predicate Valid()
      reads this, ring
    {
      && size == |ring| && Closed(ring)
      && first == if ring == [] then null else ring[0]
    }

    ghost function Items(): seq<Item<T>>
      reads this, ring
    {
      seq(|ring|, i requires 0 <= i < |ring| reads this, ring => Item(ring[i].data, ring[i].last))
    }

    constructor ()
      ensures Valid() && ring == []
    {
      first, size, ring := null, 0, [];
    }

    /** A new node between the last and the first. */
    method LinkIn(elem: T) returns (newl: Link<T>)
      requires Valid() && ring != []
      modifies ring
      ensures fresh(newl) && newl.data == elem && !newl.last
      ensures Closed(ring + [newl])
      ensures forall i :: 0 <= i < |ring| ==> ring[i].data == old(ring[i].data) && ring[i].last == old(ring[i].last)
    {
      ghost var n := |ring|;
      assert NodeOk(ring, 0) && NodeOk(ring, n - 1);
      newl := new Link(first.prev, first, elem);
      first.prev.next := newl;
      first.prev := newl;
      ghost var all := ring + [newl];
      forall i | 0 <= i < |all| ensures NodeOk(all, i) {
        assert i < n ==> old(NodeOk(ring, i));
      }
    }

    method Single(elem: T) returns (newl: Link<T>)
      requires Valid() && ring == []
      modifies this
      ensures Valid() && fresh(newl) && ring == [newl] && Items() == [Item(elem, true)]
    {
      newl := new Link(null, null, elem);
      first := newl;
      first.next, first.prev, first.last := first, first, true;
      size := 1;
      ring := [newl];
    }

    /** Appends before `first`; stops the machine when the node it expects to be the last does not say so. */
    method PushBack(elem: T) returns (r: Outcome<Link<T>>)
      requires Valid()
      modifies this, ring
      ensures r.Halted? <==> old(ring != [] && !ring[|ring| - 1].last)
      ensures r.Done? ==>
                && Valid() && fresh(r.value) && ring == old(ring) + [r.value]
                && Items() == Appended(old(Items()), elem)
    {
      if first == null {
        var only := Single(elem);
        return Done(only);
      }
      assert NodeOk(ring, 0);
      if !first.prev.last {
        return Halted;
      }
      first.prev.last := false;
      assert Closed(ring) by {
        forall i | 0 <= i < |ring| ensures NodeOk(ring, i) {
          assert old(NodeOk(ring, i));
        }
      }
      var newl := LinkIn(elem);
      size := size + 1;
      ring := ring + [newl];
      SetLast(newl);
      return Done(newl);
    }

    method SetLast(l: Link<T>)
      requires Valid() && ring != [] && l == ring[|ring| - 1]
      modifies l`last
      ensures Valid() && Items() == old(Items())[|ring| - 1 := old(Items())[|ring| - 1].(last := true)]
    {
      l.last := true;
      forall i | 0 <= i < |ring| ensures NodeOk(ring, i) {
        assert old(NodeOk(ring, i));
      }
    }

    method SetData(l: Link<T>, data: T, ghost k: nat)
      requires Valid() && k < |ring| && ring[k] == l
      modifies l`data
      ensures Valid() && Items() == old(Items())[k := old(Items())[k].(data := data)]
    {
      l.data := data;
      forall i | 0 <= i < |ring| ensures NodeOk(ring, i) {
        assert old(NodeOk(ring, i));
      }
    }

    /** Puts a node before `first` and makes it the first; the last mark stays where it was. */
    method PushFront(elem: T) returns (newl: Link<T>)
      requires Valid()
      modifies this, ring
      ensures Valid() && fresh(newl) && ring == [newl] + old(ring)
      ensures Items() == if old(ring) == [] then [Item(elem, true)] else [Item(elem, false)] + old(Items())
    {
      if first == null {
        newl := Single(elem);
        return;
      }
      newl := LinkIn(elem);
      ghost var all := ring + [newl];
      RotateClosed(all, |ring|);
      size := size + 1;
      first := newl;
      ring := [newl] + ring;
      assert all[|all| - 1..] + all[..|all| - 1] == ring;
    }

    /** Bridges the gap a node leaves. */
    method Bridge(l: Link<T>, ghost k: nat)
      requires Closed(ring) && k < |ring| && ring[k] == l && |ring| > 1
      modifies ring
      ensures forall j :: 0 <= j < |ring| && j != k ==> Bridged(ring, k, j)
      ensures l.next == ring[Succ(k, |ring|)]
      ensures forall i :: 0 <= i < |ring| ==> ring[i].data == old(ring[i].data) && ring[i].last == old(ring[i].last)
    {
      ghost var n := |ring|;
      assert NodeOk(ring, k) && NodeOk(ring, Succ(k, n)) && NodeOk(ring, Pred(k, n));
      l.prev.next := l.next;
      l.next.prev := l.prev;
      forall j | 0 <= j < n && j != k ensures Bridged(ring, k, j) {
        assert old(NodeOk(ring, j));
      }
    }

    method Unlink(l: Link<T>, ghost k: nat)
      requires Closed(ring) && k < |ring| && ring[k] == l && |ring| > 1
      modifies ring
      ensures Closed(Removed(ring, k)) && l.next == ring[Succ(k, |ring|)]
      ensures forall i :: 0 <= i < |ring| ==> ring[i].data == old(ring[i].data) && ring[i].last == old(ring[i].last)
    {
      assert Distinct(ring);
      Bridge(l, k);
      BridgedCloses(ring, k);
    }

    /** Takes a node out; the last mark, if the node had it, goes with it. */
    method Remove(l: Link<T>, ghost k: nat)
      requires Valid() && k < |ring| && ring[k] == l
      modifies this, ring
      ensures Valid() && ring == Removed(old(ring), k) && Items() == Removed(old(Items()), k)
    {
      size := size - 1;
      if size == 0 {
        first := null;
      } else {
        Unlink(l, k);
        if l == first {
          first := l.next;
        }
      }
      ring := Removed(ring, k);
    }

    /** operator[]: walks idx steps, round and round if need be. */
    method At(idx: nat) returns (r: Outcome<T>)
      requires Valid()
      ensures r == if ring == [] then Halted else Done(ring[idx % |ring|].data)
    {
      if first == null {
        return Halted;
      }
      var l := first;
      var left := idx;
      ghost var k: nat := 0;
      while left > 0
        invariant 0 <= left <= idx && k < |ring| && l == ring[k]
        invariant (k + left) % |ring| == idx % |ring|
      {
        assert NodeOk(ring, k);
        StepRound(k, left, |ring|);
        k := Succ(k, |ring|);
        l := l.next;
        left := left - 1;
      }
      return Done(l.data);
    }
  }

  /** Node `j` points past position k where it used to point at it. */
  ghost predicate Bridged<T>(ring: seq<Link<T>>, k: nat, j: nat)
    requires k < |ring| && j < |ring| && |ring| > 1
    reads ring
  {
    var n := |ring|;
    && ring[j].next == ring[if Succ(j, n) == k then Succ(k, n) else Succ(j, n)]
    && ring[j].prev == ring[if Pred(j, n) == k then Pred(k, n) else Pred(j, n)]
  }

  lemma StillDistinct<T>(ring: seq<Link<T>>, k: nat)
    requires k < |ring| && Distinct(ring)
    ensures Distinct(Removed(ring, k)) && |Removed(ring, k)| == |ring| - 1
    ensures forall i :: 0 <= i < |ring| - 1 ==> Removed(ring, k)[i] == ring[if i < k then i else i + 1]
  {
    var rest := Removed(ring, k);
    assert forall i :: 0 <= i < |rest| ==> rest[i] == ring[if i < k then i else i + 1];
  }

  lemma BridgedCloses<T>(ring: seq<Link<T>>, k: nat)
    requires |ring| > 1 && k < |ring| && Distinct(ring)
    requires forall j :: 0 <= j < |ring| && j != k ==> Bridged(ring, k, j)
    ensures Closed(Removed(ring, k))
  {
    var n := |ring|;
    var rest := Removed(ring, k);
    StillDistinct(ring, k);
    hide Distinct, Removed;
    forall i | 0 <= i < |rest| ensures NodeOk(rest, i) {
      var j := if i < k then i else i + 1;
      var s, p := Succ(i, n - 1), Pred(i, n - 1);
      RemovedNeighbours(i, j, k, n);
      assert rest[i] == ring[j] && Bridged(ring, k, j);
      assert rest[s] == ring[if s < k then s else s + 1] && rest[p] == ring[if p < k then p else p + 1];
      hide Succ, Pred;
    }
  }

  /** How positions and neighbours shift when position k goes. */
  lemma RemovedNeighbours(i: nat, j: nat, k: nat, n: nat)
    requires k < n && 1 < n && i < n - 1 && j == if i < k then i else i + 1
    ensures var s, p := Succ(i, n - 1), Pred(i, n - 1);
            && (if s < k then s else s + 1) == (if Succ(j, n) == k then Succ(k, n) else Succ(j, n))
            && (if p < k then p else p + 1) == (if Pred(j, n) == k then Pred(k, n) else Pred(j, n))
  {
  }

  lemma StepRound(k: nat, left: nat, n: nat)
    requires k < n && left > 0
    ensures (Succ(k, n) + (left - 1)) % n == (k + left) % n
  {
    if k + 1 == n {
      var q, r := (left - 1) / n, (left - 1) % n;
      DivModUnique(k + left, n, q + 1, r);
    }
  }

  function Appended<T>(items: seq<Item<T>>, elem: T): seq<Item<T>> {
    if items == [] then [Item(elem, true)]
    else items[|items| - 1 := items[|items| - 1].(last := false)] + [Item(elem, true)]
  }

  lemma RotateClosed<T>(ring: seq<Link<T>>, k: nat)
    requires Closed(ring) && k < |ring|
    ensures Closed(ring[k..] + ring[..k])
  {
    var rot := ring[k..] + ring[..k];
    var n := |ring|;
    forall i | 0 <= i < n ensures NodeOk(rot, i) {
      var j := if i + k < n then i + k else i + k - n;
      assert rot[i] == ring[j] && NodeOk(ring, j);
    }
  }
}
