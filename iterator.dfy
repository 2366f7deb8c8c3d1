/** `pre_order_iterator::operator++` and `operator--` of `include/tree.h`,
    as methods that read the links of a tree and return the new cursor. */
module PreOrderIterator {
  import opened TreeLinks
  import opened PreOrder
  import opened Cursors
  import opened TreeContainer

  /** `operator++`: the node left becomes `prev`; `curr` descends to the
      first child, or else climbs to the nearest ancestor-or-self with a
      next sibling and moves to that sibling, or to null past the last node. */
  method Increment<T>(t: Tree<T>, it: Cursor) returns (r: Cursor)
    requires t.Linked() && it.curr.To? && it.curr.id in t.nodes
    ensures r == Next(t.nodes, t.shape, it)
  {
    ghost var x := it.curr.id;
    var prev := it.curr;
    var curr := it.curr;
    if t.nodes[curr.id].firstChild != Null {
      curr := t.nodes[curr.id].firstChild;
    } else {
      while curr != Null && t.nodes[curr.id].nextSibling == Null
        invariant curr.To? ==> curr.id in t.nodes && Up(t.nodes, t.shape, curr.id) == Up(t.nodes, t.shape, x)
        invariant curr == Null ==> Up(t.nodes, t.shape, x) == Null
        decreases if curr.To? then t.shape.rank[curr.id] + 1 else 0
      {
        assert ParentLink(t.nodes, t.shape, curr.id);
        curr := t.nodes[curr.id].parent;
      }
      if curr != Null {
        curr := t.nodes[curr.id].nextSibling;
      }
    }
    r := Cursor(curr, prev);
  }

  /** `operator--`: `curr` moves back onto `prev`; the new `prev` is the
      end of the chain of last children below the previous sibling, or else
      the parent. */
  method Decrement<T>(t: Tree<T>, it: Cursor) returns (r: Cursor)
    requires t.Linked() && (it.prev.To? ==> it.prev.id in t.nodes)
    ensures r == Prev(t.nodes, t.shape, it)
  {
    var curr := it.prev;
    var prev := it.prev;
    if prev != Null {
      Closed(t.nodes, t.shape, prev.id);
      if t.nodes[prev.id].prevSibling != Null {
        ghost var s := t.nodes[prev.id].prevSibling.id;
        var node := t.nodes[prev.id].prevSibling.id;
        while t.nodes[node].lastChild != Null
          invariant node in t.nodes && DeepLast(t.nodes, t.shape, node) == DeepLast(t.nodes, t.shape, s)
          decreases t.shape.bound - t.shape.rank[node]
        {
          assert ChildList(t.nodes, node, t.shape.kids[node]);
          KidRank(t.nodes, t.shape, node, |t.shape.kids[node]| - 1);
          node := t.nodes[node].lastChild.id;
        }
        prev := To(node);
      } else {
        prev := t.nodes[prev.id].parent;
      }
    }
    r := Cursor(curr, prev);
  }
}
