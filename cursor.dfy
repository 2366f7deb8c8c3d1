/** The state of a `pre_order_iterator` of `include/tree.h`: the node it
    stands on and the node before it.  On a tree, the cursors that matter sit
    at the indices of the pre-order: `prev` is the pre-order predecessor of
    `curr`, and past the end `curr` is null and `prev` the last node.  The
    steps `Next` and `Prev` are what `operator++` and `operator--` compute;
    the lemmas show that they move one index forward and back. */
module Cursors {
  import opened TreeLinks
  import opened PreOrder

  datatype Cursor = Cursor(curr: Ptr, prev: Ptr)

  /** The cursor at index `k` of the pre-order `o` (`k == |o|` is the end). */
  function At(o: seq<NodeId>, k: nat): Cursor
    requires k <= |o|
  {
    Cursor(NodeAt(o, k), if k == 0 then Null else To(o[k - 1]))
  }

  /** What `operator++` leaves: the pre-order successor, with the node left
      behind as the new `prev`. */
  ghost function Next<T>(h: Heap<T>, sh: Shape, c: Cursor): Cursor
    requires WF(h, sh) && c.curr.To? && c.curr.id in h
  {
    Cursor(Succ(h, sh, c.curr.id), c.curr)
  }

  /** What `operator--` leaves: `curr` moves back onto `prev`, and `prev`
      becomes the node before that one. */
  ghost function Prev<T>(h: Heap<T>, sh: Shape, c: Cursor): Cursor
    requires WF(h, sh) && (c.prev.To? ==> c.prev.id in h)
  {
    match c.prev
    case Null => Cursor(Null, Null)
    case To(p) => Cursor(c.prev, Pred(h, sh, p))
  }

  /** `operator++` moves from index `k` to index `k + 1`; from the last node
      it reaches the end cursor. */
  lemma NextAt<T>(h: Heap<T>, sh: Shape, root: Ptr, k: nat)
    requires Rooted(h, sh, root) && k < |Order(h, sh, root)|
    ensures Order(h, sh, root)[k] in h
    ensures Next(h, sh, At(Order(h, sh, root), k)) == At(Order(h, sh, root), k + 1)
  {
    OrderSucc(h, sh, root, k);
  }

  /** `operator--` moves from index `k` to index `k - 1`; in particular from
      the end cursor to the last node. */
  lemma PrevAt<T>(h: Heap<T>, sh: Shape, root: Ptr, k: nat)
    requires Rooted(h, sh, root) && 0 < k <= |Order(h, sh, root)|
    ensures Order(h, sh, root)[k - 1] in h
    ensures Prev(h, sh, At(Order(h, sh, root), k)) == At(Order(h, sh, root), k - 1)
  {
    OrderPred(h, sh, root, k - 1);
  }

  /** `--(++it) == it` on every cursor that stands on a node. */
  lemma PrevNext<T>(h: Heap<T>, sh: Shape, root: Ptr, k: nat)
    requires Rooted(h, sh, root) && k < |Order(h, sh, root)|
    ensures Order(h, sh, root)[k] in h
    ensures Next(h, sh, At(Order(h, sh, root), k)).prev.To?
    ensures Prev(h, sh, Next(h, sh, At(Order(h, sh, root), k))) == At(Order(h, sh, root), k)
  {
    NextAt(h, sh, root, k);
    PrevAt(h, sh, root, k + 1);
  }

  /** `++(--it) == it` on every cursor but the first. */
  lemma NextPrev<T>(h: Heap<T>, sh: Shape, root: Ptr, k: nat)
    requires Rooted(h, sh, root) && 0 < k <= |Order(h, sh, root)|
    ensures Order(h, sh, root)[k - 1] in h
    ensures Prev(h, sh, At(Order(h, sh, root), k)).curr.To?
    ensures Next(h, sh, Prev(h, sh, At(Order(h, sh, root), k))) == At(Order(h, sh, root), k)
  {
    PrevAt(h, sh, root, k);
    NextAt(h, sh, root, k - 1);
  }

  /** Iterator equality compares both fields; on the cursors of a tree it
      holds exactly when they sit at the same index. */
  lemma AtInjective(o: seq<NodeId>, j: nat, k: nat)
    requires Distinct(o) && j <= |o| && k <= |o|
    ensures At(o, j) == At(o, k) <==> j == k
  {
    if j < k {
      assert At(o, j).curr == To(o[j]);
      assert k == |o| || o[j] != o[k];
    } else if k < j {
      assert At(o, k).curr == To(o[k]);
      assert j == |o| || o[j] != o[k];
    }
  }
}
