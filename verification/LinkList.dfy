/** The doubly linked list of block descriptors, threaded through a fixed array by index. */
module LinkList {
  import opened HeapBlocks

  /** The null pointer. */
  const NIL := -1

  datatype Link = Link(next: int, prev: int, length: nat, free: bool)

  predicate Distinct(order: seq<int>) {
    forall i, j :: 0 <= i < j < |order| ==> order[i] != order[j]
  }

  function At(order: seq<int>, i: int): int {
    if 0 <= i < |order| then order[i] else NIL
  }

  /** Following `next` from `first` visits exactly `order`, and `prev` is its inverse. */
  predicate Linked(ls: seq<Link>, first: int, order: seq<int>) {
    && Distinct(order) && first == At(order, 0)
    && (forall i :: 0 <= i < |order| ==> 0 <= order[i] < |ls|)
    && (forall i :: 0 <= i < |order| ==> NodeOk(ls, order, i))
  }

  /** Position i of the list points to its neighbours. */
  predicate NodeOk(ls: seq<Link>, order: seq<int>, i: int)
    requires 0 <= i < |order| && 0 <= order[i] < |ls|
  {
    ls[order[i]].next == At(order, i + 1) && ls[order[i]].prev == At(order, i - 1)
  }

  /** The blocks the descriptors in `order` describe. */
  function BlocksOf(ls: seq<Link>, order: seq<int>): (bs: seq<Block>)
    requires forall i :: 0 <= i < |order| ==> 0 <= order[i] < |ls|
    ensures |bs| == |order|
    ensures forall i :: 0 <= i < |order| ==> bs[i] == Block(ls[order[i]].length, ls[order[i]].free)
  {
    seq(|order|, i requires 0 <= i < |order| => Block(ls[order[i]].length, ls[order[i]].free))
  }

  /** Only the links changed, not what the descriptors say about memory. */
  predicate SameBlocks(ls: seq<Link>, ls': seq<Link>) {
    |ls'| == |ls| && forall j :: 0 <= j < |ls| ==> ls'[j].length == ls[j].length && ls'[j].free == ls[j].free
  }

  function Inserted(order: seq<int>, k: nat, node: int): seq<int>
    requires k <= |order|
  {
    order[..k] + [node] + order[k..]
  }

  function Removed(order: seq<int>, k: nat): seq<int>
    requires k < |order|
  {
    order[..k] + order[k + 1..]
  }

  // ---- what a splice of the links does to the order ----

  predicate InRange(order: seq<int>, n: nat) {
    forall i :: 0 <= i < |order| ==> 0 <= order[i] < n
  }

  /** ls' is ls with `node` spliced in before position p, seen from position i. */
  predicate SplicedInAt(ls: seq<Link>, ls': seq<Link>, order: seq<int>, p: nat, node: int, i: int)
    requires |ls'| == |ls| && InRange(order, |ls|) && 0 <= i < |order|
  {
    && ls'[order[i]].next == (if i == p - 1 then node else ls[order[i]].next)
    && ls'[order[i]].prev == (if i == p then node else ls[order[i]].prev)
  }

  lemma SpliceIn(ls: seq<Link>, ls': seq<Link>, first: int, order: seq<int>, p: nat, node: int)
    requires Linked(ls, first, order) && p <= |order| && |ls'| == |ls| && 0 <= node < |ls| && node !in order
    requires ls'[node].next == At(order, p) && ls'[node].prev == At(order, p - 1)
    requires forall i :: 0 <= i < |order| ==> SplicedInAt(ls, ls', order, p, node, i)
    ensures Linked(ls', if p == 0 then node else first, Inserted(order, p, node))
  {
    var o := Inserted(order, p, node);
    forall i | 0 <= i < |o| ensures 0 <= o[i] < |ls'| && NodeOk(ls', o, i) {
      if i != p {
        var j := if i < p then i else i - 1;
        assert o[i] == order[j] && NodeOk(ls, order, j) && SplicedInAt(ls, ls', order, p, node, j);
      }
    }
  }

  /** ls' is ls with position p taken out of the chain, seen from position i. */
  predicate SplicedOutAt(ls: seq<Link>, ls': seq<Link>, order: seq<int>, p: nat, i: int)
    requires |ls'| == |ls| && InRange(order, |ls|) && 0 <= i < |order|
  {
    && ls'[order[i]].next == (if i == p - 1 then At(order, p + 1) else ls[order[i]].next)
    && ls'[order[i]].prev == (if i == p + 1 then At(order, p - 1) else ls[order[i]].prev)
  }

  lemma SpliceOut(ls: seq<Link>, ls': seq<Link>, first: int, order: seq<int>, p: nat)
    requires Linked(ls, first, order) && 0 < p < |order| && |ls'| == |ls|
    requires forall i :: 0 <= i < |order| && i != p ==> SplicedOutAt(ls, ls', order, p, i)
    ensures Linked(ls', first, Removed(order, p))
  {
    var o := Removed(order, p);
    forall i | 0 <= i < |o| ensures 0 <= o[i] < |ls'| && NodeOk(ls', o, i) {
      var j := if i < p then i else i + 1;
      assert o[i] == order[j] && NodeOk(ls, order, j) && SplicedOutAt(ls, ls', order, p, j);
    }
  }

  // ---- the splices ----

  method InsertAfter(links: array<Link>, first: int, cur: int, node: int, ghost order: seq<int>, ghost k: nat)
    requires Linked(links[..], first, order) && k < |order| && order[k] == cur
    requires 0 <= node < links.Length && node !in order
    modifies links
    ensures Linked(links[..], first, Inserted(order, k + 1, node))
    ensures SameBlocks(old(links[..]), links[..])
  {
    assert NodeOk(links[..], order, k);
    links[node] := links[node].(next := links[cur].next, prev := cur);
    if links[cur].next != NIL {
      var after := links[cur].next;
      links[after] := links[after].(prev := node);
    }
    links[cur] := links[cur].(next := node);
    SpliceIn(old(links[..]), links[..], first, order, k + 1, node);
  }

  method InsertBefore(links: array<Link>, first: int, cur: int, node: int, ghost order: seq<int>, ghost k: nat)
    returns (newfirst: int)
    requires Linked(links[..], first, order) && k < |order| && order[k] == cur
    requires 0 <= node < links.Length && node !in order
    modifies links
    ensures Linked(links[..], newfirst, Inserted(order, k, node))
    ensures SameBlocks(old(links[..]), links[..])
  {
    assert NodeOk(links[..], order, k);
    newfirst := first;
    if links[cur].prev != NIL {
      var before := links[cur].prev;
      links[before] := links[before].(next := node);
    }
    links[node] := links[node].(prev := links[cur].prev, next := cur);
    links[cur] := links[cur].(prev := node);
    if cur == first {
      newfirst := node;
    }
    SpliceIn(old(links[..]), links[..], first, order, k, node);
  }

  /** Takes the descriptor after `cur` out of the list. */
  method UnlinkNext(links: array<Link>, first: int, cur: int, ghost order: seq<int>, ghost k: nat) returns (gone: int)
    requires Linked(links[..], first, order) && k + 1 < |order| && order[k] == cur
    modifies links
    ensures gone == order[k + 1] && links[gone] == old(links[gone])
    ensures Linked(links[..], first, Removed(order, k + 1))
    ensures SameBlocks(old(links[..]), links[..])
  {
    assert NodeOk(links[..], order, k) && NodeOk(links[..], order, k + 1);
    gone := links[cur].next;
    if links[gone].next != NIL {
      var after := links[gone].next;
      links[after] := links[after].(prev := cur);
    }
    links[cur] := links[cur].(next := links[gone].next);
    SpliceOut(old(links[..]), links[..], first, order, k + 1);
  }
}
