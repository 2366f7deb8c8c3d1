/** `pre_order_view` of `include/tree.h`: the first and end cursors of the
    pre-order of a tree, and its first and last values. */
module PreOrderView {
  import opened TreeLinks
  import opened PreOrder
  import opened Cursors
  import opened TreeContainer
  import opened PreOrderIterator

  /** `begin()`: the cursor at index 0 of the pre-order. */
  method Begin<T>(t: Tree<T>) returns (r: Cursor)
    requires t.Valid()
    ensures r == At(Order(t.nodes, t.shape, t.root), 0)
  {
    r := Cursor(t.root, Null);
  }

  /** `end()`: the cursor one past the last node of the pre-order; on an
      empty tree it equals `begin()`. */
  method End<T>(t: Tree<T>) returns (r: Cursor)
    requires t.Valid()
    ensures r == At(Order(t.nodes, t.shape, t.root), |Order(t.nodes, t.shape, t.root)|)
    ensures t.Empty() ==> r == At(Order(t.nodes, t.shape, t.root), 0)
  {
    var last := t.FindLastNode();
    r := Cursor(Null, last);
  }

  /** `front()`: the value at the root, the first node of the pre-order. */
  method Front<T>(t: Tree<T>) returns (v: T)
    requires t.Valid() && !t.Empty()
    ensures |Order(t.nodes, t.shape, t.root)| > 0
    ensures v == t.nodes[Order(t.nodes, t.shape, t.root)[0]].value
  {
    var b := Begin(t);
    v := t.nodes[b.curr.id].value;
  }

  /** `back()`: `*(--end())`, the value at the last node of the pre-order. */
  method Back<T>(t: Tree<T>) returns (v: T)
    requires t.Valid() && !t.Empty()
    ensures |Order(t.nodes, t.shape, t.root)| > 0
    ensures v == t.nodes[Order(t.nodes, t.shape, t.root)[|Order(t.nodes, t.shape, t.root)| - 1]].value
  {
    ghost var o := Order(t.nodes, t.shape, t.root);
    var e := End(t);
    PrevAt(t.nodes, t.shape, t.root, |o|);
    var b := Decrement(t, e);
    v := t.nodes[b.curr.id].value;
  }
}
