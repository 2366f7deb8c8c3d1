/** The container of `include/tree.h`: `tree_storage` and `tree` together.
    The live nodes of the allocator are one heap field; the linkage
    operations of `tree_node` are methods that rewrite the link fields of the
    nodes they name, field by field and in the order the source does. */
module TreeContainer {
  import opened TreeLinks
  import opened PreOrder
  import opened Linkage
  import opened Subtrees
  import opened Splice
  import opened Effects
  import opened Cursors

  /** Every identity in use lies below `b`. */
  ghost predicate Below<T>(h: Heap<T>, b: NodeId) {
    forall n | n in h :: n < b
  }

  /** The child lists `kids` are those of `h0`, `sh0` with `nw` in the
      place of `x`, at index `i` of the list of its parent, and `x` as the
      only child of `nw`. */
  ghost predicate AdoptedAt<T>(h0: Heap<T>, sh0: Shape, x: NodeId, i: nat, nw: NodeId, kids: map<NodeId, seq<NodeId>>)
    requires WF(h0, sh0) && x in h0
  {
    && h0[x].parent.To?
    && var q := h0[x].parent.id;
    && q in h0 && i < |sh0.kids[q]| && sh0.kids[q][i] == x
    && kids == sh0.kids[q := Replaced(sh0.kids[q], i, nw)][nw := [x]]
  }

  /** The child lists `kids` are those of `sh0` with the leaf `nw` added
      last below `p`. */
  ghost predicate AppendedTo(sh0: Shape, p: NodeId, nw: NodeId, kids: map<NodeId, seq<NodeId>>)
  {
    p in sh0.kids && kids == sh0.kids[p := sh0.kids[p] + [nw]][nw := []]
  }

  /** The child lists `kids` are those of `h0`, `sh0` with the leaf `nw`
      added last below the parent of the last node of the subtree of `r`
      (the node `find_last_node` returns). */
  ghost predicate AppendedToParentOfLast<T>(h0: Heap<T>, sh0: Shape, r: NodeId, nw: NodeId, kids: map<NodeId, seq<NodeId>>)
    requires WF(h0, sh0) && r in h0
  {
    && h0[DeepLast(h0, sh0, r)].parent.To?
    && AppendedTo(sh0, h0[DeepLast(h0, sh0, r)].parent.id, nw, kids)
  }

  /** The child lists `kids` are those of `h0`, `sh0` with the leaf `nw`
      just before `x`, at index `i` of the list of its parent. */
  ghost predicate SiblingAt<T>(h0: Heap<T>, sh0: Shape, x: NodeId, i: nat, nw: NodeId, kids: map<NodeId, seq<NodeId>>)
    requires WF(h0, sh0) && x in h0
  {
    && h0[x].parent.To?
    && var q := h0[x].parent.id;
    && q in h0 && i < |sh0.kids[q]| && sh0.kids[q][i] == x
    && kids == sh0.kids[q := InsertAt(sh0.kids[q], i, nw)][nw := []]
  }

  /** The child lists `kids` of the nodes `keys` left by erasing the child
      `x` of its parent `q` in `h0`, `sh0`: `q` survives and has lost `x`
      at index `i`, and every other survivor keeps its list. */
  ghost predicate CutFrom<T>(h0: Heap<T>, sh0: Shape, x: NodeId, i: nat, keys: set<NodeId>,
                          kids: map<NodeId, seq<NodeId>>)
    requires WF(h0, sh0) && x in h0 && keys <= h0.Keys
  {
    && h0[x].parent.To?
    && var q := h0[x].parent.id;
    && q in h0 && i < |sh0.kids[q]| && sh0.kids[q][i] == x
    && q in keys && keys <= kids.Keys
    && forall n | n in keys :: kids[n] == if n == q then Without(sh0.kids[q], i) else sh0.kids[n]
  }

  /** Where `insert_node_vert(o, nw)` puts `nw` in the tree `h0`, `sh0`
      rooted at `root0`, as the new root `root` and child lists `kids`:
      in the place of a child `o` (at index `i` of its parent's list), above
      the root `o`, as the last child of the last node at the end, or as the
      root of an empty tree. */
  ghost predicate VertPlaced<T>(h0: Heap<T>, sh0: Shape, root0: Ptr, o: Ptr, i: nat, nw: NodeId,
                                root: Ptr, kids: map<NodeId, seq<NodeId>>)
    requires Rooted(h0, sh0, root0) && (o.To? ==> o.id in h0)
  {
    match o
    case To(x) =>
      if h0[x].parent.To? then root == root0 && AdoptedAt(h0, sh0, x, i, nw, kids)
      else root == To(nw) && kids == sh0.kids[nw := [x]]
    case Null =>
      if root0.To? then root == root0 && AppendedTo(sh0, DeepLast(h0, sh0, root0.id), nw, kids)
      else root == To(nw) && kids == sh0.kids[nw := []]
  }

  /** Where `insert_node_hor(o, nw)` puts `nw` in the tree `h0`, `sh0`
      rooted at `root0`, as the new root `root` and child lists `kids`:
      just before the child `o` (at index `i` of its parent's list), as the
      last child of the last node's parent at the end, or as the root of an
      empty tree. */
  ghost predicate HorPlaced<T>(h0: Heap<T>, sh0: Shape, root0: Ptr, o: Ptr, i: nat, nw: NodeId,
                               root: Ptr, kids: map<NodeId, seq<NodeId>>)
    requires Rooted(h0, sh0, root0) && (o.To? ==> o.id in h0)
  {
    && root == (if root0 == Null then To(nw) else root0)
    && match o
       case To(x) => SiblingAt(h0, sh0, x, i, nw, kids)
       case Null =>
         if root0.To? then AppendedToParentOfLast(h0, sh0, root0.id, nw, kids)
         else kids == sh0.kids[nw := []]
  }

  // ---- what the child lists of an insert say about the links

  /** After a horizontal insert before `x`, the new node hangs under the
      parent of `x`, immediately before `x`, and takes over the previous
      sibling `x` had. */
  lemma SiblingLinks<T>(h0: Heap<T>, sh0: Shape, x: NodeId, i: nat, nw: NodeId, h: Heap<T>, sh: Shape)
    requires WF(h0, sh0) && x in h0 && nw !in h0 && WF(h, sh)
    requires SiblingAt(h0, sh0, x, i, nw, sh.kids)
    ensures nw in h && x in h
    ensures h[nw].parent == h0[x].parent && h[x].parent == h0[x].parent
    ensures h[nw].nextSibling == To(x) && h[x].prevSibling == To(nw)
    ensures h[nw].prevSibling == h0[x].prevSibling
    ensures h[nw].firstChild == Null && h[nw].lastChild == Null
  {
    var q := h0[x].parent.id;
    var s := sh0.kids[q];
    var t := InsertAt(s, i, nw);
    assert sh.kids[q] == t && sh.kids[nw] == [];
    assert ChildList(h0, q, s);
    assert ChildList(h, q, t);
    assert ChildList(h, nw, sh.kids[nw]);
    assert t[i] == nw && t[i + 1] == x;
  }

  /** After a vertical insert at `x`, the new node stands where `x` stood,
      with the parent and both siblings `x` had, and `x` is its only child. */
  lemma AdoptLinks<T>(h0: Heap<T>, sh0: Shape, x: NodeId, i: nat, nw: NodeId, h: Heap<T>, sh: Shape)
    requires WF(h0, sh0) && x in h0 && nw !in h0 && WF(h, sh)
    requires AdoptedAt(h0, sh0, x, i, nw, sh.kids)
    ensures nw in h && x in h
    ensures h[nw].parent == h0[x].parent
    ensures h[nw].prevSibling == h0[x].prevSibling && h[nw].nextSibling == h0[x].nextSibling
    ensures h[nw].firstChild == To(x) && h[nw].lastChild == To(x)
    ensures h[x].parent == To(nw) && h[x].prevSibling == Null && h[x].nextSibling == Null
  {
    var q := h0[x].parent.id;
    var s := sh0.kids[q];
    var t := Replaced(s, i, nw);
    assert sh.kids[q] == t && sh.kids[nw] == [x];
    assert ChildList(h0, q, s);
    assert ChildList(h, q, t);
    assert ChildList(h, nw, [x]);
    assert t[i] == nw;
  }

  /** After an append below `p`, the new node is the last child of `p`,
      follows the former last child, and is a leaf. */
  lemma AppendLinks<T>(sh0: Shape, p: NodeId, nw: NodeId, h: Heap<T>, sh: Shape)
    requires p != nw && WF(h, sh) && AppendedTo(sh0, p, nw, sh.kids)
    ensures nw in h && p in h
    ensures h[nw].parent == To(p) && h[p].lastChild == To(nw)
    ensures h[nw].prevSibling == Tail(sh0.kids[p]) && h[nw].nextSibling == Null
    ensures h[nw].firstChild == Null && h[nw].lastChild == Null
  {
    var s := sh0.kids[p];
    var t := s + [nw];
    assert sh.kids[p] == t && sh.kids[nw] == [];
    assert ChildList(h, p, t);
    assert ChildList(h, nw, sh.kids[nw]);
    assert t[|s|] == nw;
  }

  class Tree<T> {
    /** The nodes the allocator has handed out and not taken back. */
    var nodes: Heap<T>
    /** `tree_storage::root`. */
    var root: Ptr
    /** `tree::node_count`. */
    var nodeCount: nat
    /** The next identity the allocator hands out. */
    var nextId: NodeId
    /** Child lists and ranks of the live nodes. */
    ghost var shape: Shape

    /** The nodes are well linked; some of them may be detached. */
    ghost predicate Linked()
      reads this
    {
      WF(nodes, shape) && Below(nodes, nextId)
    }

    /** The container invariant: the live nodes form one tree below `root`,
        and `nodeCount` counts them. */
    ghost predicate Valid()
      reads this
    {
      Linked() && Rooted(nodes, shape, root) && nodeCount == |nodes|
    }

    /** The identities of the nodes in pre-order: what an iteration from
        `begin()` to `end()` visits. */
    ghost function Ids(): seq<NodeId>
      reads this
      requires Valid()
    {
      Order(nodes, shape, root)
    }

    /** The subtree of `n` in pre-order. */
    ghost function SubtreeOf(n: NodeId): seq<NodeId>
      reads this
      requires Linked() && n in nodes
    {
      Subtree(nodes, shape, n)
    }

    /** `tree()`: no root and no nodes. */
    constructor ()
      ensures Valid() && nodes == map[] && root == Null && nodeCount == 0
    {
      nodes := map[];
      root := Null;
      nodeCount := 0;
      nextId := 0;
      shape := Shape(map[], map[], 0);
    }

    /** `tree_storage::create_node`: a new node holding `v`, with null links. */
    method CreateNode(v: T) returns (id: NodeId)
      requires Linked()
      modifies this
      ensures Linked() && root == old(root) && nodeCount == old(nodeCount)
      ensures id !in old(nodes) && nodes == old(nodes)[id := Fresh(v)]
      ensures shape.kids == old(shape.kids)[id := []]
    {
      id := nextId;
      AddFreshWF(nodes, shape, id, v);
      nodes := nodes[id := Fresh(v)];
      shape := Shape(shape.kids[id := []], shape.rank[id := 0], shape.bound + 1);
      nextId := nextId + 1;
    }

    /** `p->push_back_child(c)`: the detached `c` becomes the last child of
        `p`, which must not lie below `c`. */
    method PushBackChild(p: NodeId, c: NodeId)
      requires Linked() && p in nodes && c in nodes && Detached(nodes, c)
      requires !Anc(nodes, shape, p, c)
      modifies this
      ensures Linked() && root == old(root) && nodeCount == old(nodeCount) && nextId == old(nextId)
      ensures nodes == PushBackHeap(old(nodes), p, c)
      ensures shape.kids == old(shape.kids)[p := old(shape.kids[p]) + [c]]
    {
      ghost var h, sh := nodes, shape;
      assert Anc(h, sh, p, p);
      PushBackSetup(h, sh, p, c);
      var m: Heap<T> := nodes;
      if m[p].firstChild == Null {
        m := m[p := m[p].(firstChild := To(c))];
      }
      if m[p].lastChild != Null {
        var last := m[p].lastChild.id;
        m := m[last := m[last].(nextSibling := To(c))];
        m := m[c := m[c].(prevSibling := m[p].lastChild)];
      }
      m := m[p := m[p].(lastChild := To(c))];
      m := m[c := m[c].(parent := To(p))];
      nodes := m;
      assert nodes == PushBackHeap(h, p, c);
      PushBackWF(h, sh, p, c);
      shape := Lift(h, sh, sh.kids[p := sh.kids[p] + [c]], c);
    }

    /** `p->push_front_child(c)`: the detached `c` becomes the first child of
        `p`, which must not lie below `c`. */
    method PushFrontChild(p: NodeId, c: NodeId)
      requires Linked() && p in nodes && c in nodes && Detached(nodes, c)
      requires !Anc(nodes, shape, p, c)
      modifies this
      ensures Linked() && root == old(root) && nodeCount == old(nodeCount) && nextId == old(nextId)
      ensures nodes == PushFrontHeap(old(nodes), p, c)
      ensures shape.kids == old(shape.kids)[p := [c] + old(shape.kids[p])]
    {
      ghost var h, sh := nodes, shape;
      assert Anc(h, sh, p, p);
      PushFrontSetup(h, sh, p, c);
      var m: Heap<T> := nodes;
      if m[p].lastChild == Null {
        m := m[p := m[p].(lastChild := To(c))];
      }
      if m[p].firstChild != Null {
        var first := m[p].firstChild.id;
        m := m[first := m[first].(prevSibling := To(c))];
        m := m[c := m[c].(nextSibling := m[p].firstChild)];
      }
      m := m[p := m[p].(firstChild := To(c))];
      m := m[c := m[c].(parent := To(p))];
      nodes := m;
      assert nodes == PushFrontHeap(h, p, c);
      PushFrontWF(h, sh, p, c);
      shape := Lift(h, sh, sh.kids[p := [c] + sh.kids[p]], c);
    }

    /** `p->unlink_child(c)`: the child `c` of `p` leaves the child list at
        its position `i` and is left detached, its own children kept. */
    method UnlinkChild(p: NodeId, c: NodeId) returns (ghost i: nat)
      requires Linked() && c in nodes && nodes[c].parent == To(p)
      modifies this
      ensures Linked() && root == old(root) && nodeCount == old(nodeCount) && nextId == old(nextId)
      ensures p in old(nodes) && i < |old(shape.kids[p])| && old(shape.kids[p])[i] == c
      ensures nodes == UnlinkHeap(old(nodes), p, c) && Detached(nodes, c)
      ensures shape.kids == old(shape.kids)[p := Without(old(shape.kids[p]), i)]
      ensures shape.rank == old(shape.rank) && shape.bound == old(shape.bound)
    {
      ghost var h, sh := nodes, shape;
      i := UnlinkSetup(h, sh, p, c);
      var m: Heap<T> := nodes;
      if m[c].prevSibling != Null {
        var a := m[c].prevSibling.id;
        m := m[a := m[a].(nextSibling := m[c].nextSibling)];
      }
      if m[c].nextSibling != Null {
        var b := m[c].nextSibling.id;
        m := m[b := m[b].(prevSibling := m[c].prevSibling)];
      }
      if m[p].firstChild == To(c) {
        m := m[p := m[p].(firstChild := m[c].nextSibling)];
      }
      if m[p].lastChild == To(c) {
        m := m[p := m[p].(lastChild := m[c].prevSibling)];
      }
      m := m[c := m[c].(parent := Null, prevSibling := Null, nextSibling := Null)];
      nodes := m;
      assert nodes == UnlinkHeap(h, p, c);
      ghost var j := UnlinkWF(h, sh, p, c);
      assert j == i by {
        assert ChildList(h, p, sh.kids[p]);
      }
      shape := Shape(sh.kids[p := Without(sh.kids[p], i)], sh.rank, sh.bound);
    }

    /** The link writes of `replace(o, nw)`, in the order the source makes them. */
    method ReplaceLinks(o: NodeId, nw: NodeId)
      requires o in nodes && nw in nodes
      requires nodes[o].parent.To? ==> nodes[o].parent.id in nodes
      requires nodes[o].prevSibling.To? ==> nodes[o].prevSibling.id in nodes
      requires nodes[o].nextSibling.To? ==> nodes[o].nextSibling.id in nodes
      modifies this
      ensures nodes == ReplaceHeap(old(nodes), o, nw)
      ensures root == old(root) && nodeCount == old(nodeCount) && nextId == old(nextId) && shape == old(shape)
    {
      var m: Heap<T> := nodes;
      var parent := m[o].parent;
      m := m[nw := m[nw].(parent := parent)];
      if parent != Null {
        if m[parent.id].firstChild == To(o) {
          m := m[parent.id := m[parent.id].(firstChild := To(nw))];
        }
        if m[parent.id].lastChild == To(o) {
          m := m[parent.id := m[parent.id].(lastChild := To(nw))];
        }
      }
      m := m[nw := m[nw].(prevSibling := m[o].prevSibling)];
      if m[o].prevSibling != Null {
        var a := m[o].prevSibling.id;
        m := m[a := m[a].(nextSibling := To(nw))];
      }
      m := m[nw := m[nw].(nextSibling := m[o].nextSibling)];
      if m[o].nextSibling != Null {
        var b := m[o].nextSibling.id;
        m := m[b := m[b].(prevSibling := To(nw))];
      }
      m := m[o := m[o].(parent := Null, prevSibling := Null, nextSibling := Null)];
      nodes := m;
    }

    /** `replace(o, nw)`: the detached `nw` takes the place of `o` under its
        parent and among its siblings (at position `i`), and `o` is left
        detached with its own children.  A parentless `o` has no siblings,
        and then nothing changes. */
    method Replace(o: NodeId, nw: NodeId) returns (ghost i: nat)
      requires Linked() && o in nodes && nw in nodes && Detached(nodes, nw)
      requires nodes[o].parent.To? ==> nodes[o].parent.id in nodes && !Anc(nodes, shape, nodes[o].parent.id, nw)
      modifies this
      ensures Linked() && root == old(root) && nodeCount == old(nodeCount) && nextId == old(nextId)
      ensures nodes == ReplaceHeap(old(nodes), o, nw) && Detached(nodes, o)
      ensures old(nodes[o].parent) == Null ==> nodes == old(nodes) && shape == old(shape)
      ensures old(nodes[o].parent).To? ==>
                var q := old(nodes[o].parent.id);
                && i < |old(shape.kids[q])| && old(shape.kids[q])[i] == o
                && shape.kids == old(shape.kids)[q := Replaced(old(shape.kids[q]), i, nw)]
    {
      ghost var h, sh := nodes, shape;
      Closed(h, sh, o);
      ReplaceLinks(o, nw);
      assert nodes == ReplaceHeap(h, o, nw);
      i := 0;
      if h[o].parent.To? {
        var q := h[o].parent.id;
        i := ReplaceWF(h, sh, o, nw);
        shape := Lift(h, sh, sh.kids[q := Replaced(sh.kids[q], i, nw)], nw);
      } else {
        assert ParentLink(h, sh, o);
        ReplaceDetached(h, o, nw);
      }
    }

    /** `insert_sibling(o, nw)`: the detached `nw` joins the children of the
        parent of `o` just before `o`, which sits at position `i`. */
    method InsertSibling(o: NodeId, nw: NodeId) returns (ghost i: nat)
      requires Linked() && o in nodes && nw in nodes && Detached(nodes, nw) && nodes[o].parent.To?
      requires nodes[o].parent.id in nodes && !Anc(nodes, shape, nodes[o].parent.id, nw)
      modifies this
      ensures Linked() && root == old(root) && nodeCount == old(nodeCount) && nextId == old(nextId)
      ensures nodes == InsertSiblingHeap(old(nodes), o, nw)
      ensures var q := old(nodes[o].parent.id);
              && i < |old(shape.kids[q])| && old(shape.kids[q])[i] == o
              && shape.kids == old(shape.kids)[q := InsertAt(old(shape.kids[q]), i, nw)]
    {
      ghost var h, sh := nodes, shape;
      ghost var q := h[o].parent.id;
      i := UnlinkSetup(h, sh, q, o);
      var m: Heap<T> := nodes;
      var parent := m[o].parent;
      m := m[nw := m[nw].(parent := parent)];
      if m[parent.id].firstChild == To(o) {
        m := m[parent.id := m[parent.id].(firstChild := To(nw))];
      }
      m := m[nw := m[nw].(prevSibling := m[o].prevSibling)];
      m := m[nw := m[nw].(nextSibling := To(o))];
      if m[o].prevSibling != Null {
        var a := m[o].prevSibling.id;
        m := m[a := m[a].(nextSibling := To(nw))];
      }
      m := m[o := m[o].(prevSibling := To(nw))];
      nodes := m;
      assert nodes == InsertSiblingHeap(h, o, nw);
      ghost var j := InsertSiblingWF(h, sh, o, nw);
      assert j == i by {
        assert ChildList(h, q, sh.kids[q]);
      }
      shape := Lift(h, sh, sh.kids[q := InsertAt(sh.kids[q], i, nw)], nw);
    }

    /** `tree::count_nodes(n)`: one for `n` plus the counts of its
        children, i.e. the number of nodes in the pre-order of its subtree. */
    method CountNodes(n: NodeId) returns (r: nat)
      requires Linked() && n in nodes
      ensures r == |Subtree(nodes, shape, n)|
      decreases shape.bound - shape.rank[n]
    {
      ghost var K := shape.kids[n];
      assert ChildList(nodes, n, K);
      r := 1;
      var curr := nodes[n].firstChild;
      ghost var i := 0;
      while curr != Null
        invariant i <= |K|
        invariant curr == if i < |K| then To(K[i]) else Null
        invariant r == 1 + |Forest(nodes, shape, n, i)|
        decreases |K| - i
      {
        KidRank(nodes, shape, n, i);
        ForestStep(nodes, shape, n, i);
        var c := CountNodes(curr.id);
        r := r + c;
        curr := nodes[curr.id].nextSibling;
        i := i + 1;
      }
    }

    /** `tree::find_last_node`: follow `last_child` down from the root; on
        a tree this is the last node of the pre-order. */
    method FindLastNode() returns (r: Ptr)
      requires Linked() && (root.To? ==> root.id in nodes)
      ensures r == if root.To? then To(DeepLast(nodes, shape, root.id)) else Null
      ensures Rooted(nodes, shape, root) ==> r == Last(Order(nodes, shape, root))
    {
      if root != Null {
        var node := root.id;
        while nodes[node].lastChild != Null
          invariant node in nodes && DeepLast(nodes, shape, node) == DeepLast(nodes, shape, root.id)
          decreases shape.bound - shape.rank[node]
        {
          assert ChildList(nodes, node, shape.kids[node]);
          KidRank(nodes, shape, node, |shape.kids[node]| - 1);
          node := nodes[node].lastChild.id;
        }
        r := To(node);
        if Rooted(nodes, shape, root) {
          OrderLast(nodes, shape, root);
        }
      } else {
        r := Null;
      }
    }

    /** The state is the tree `h0`, `sh0` plus the node `nw` just made by
        `create_node`, not yet linked. */
    ghost predicate FreshOver(h0: Heap<T>, sh0: Shape, nw: NodeId)
      reads this
    {
      && nw !in h0 && nw in nodes && nodes == h0[nw := Fresh(nodes[nw].value)]
      && shape.kids == sh0.kids[nw := []]
    }

    /** `nw` has joined the tree `h0`, `sh0` (rooted at `root0`) at index
        `k` of its pre-order, and the state is a tree again. */
    ghost predicate InsertedAt(h0: Heap<T>, sh0: Shape, root0: Ptr, k: nat, nw: NodeId)
      reads this
      requires Rooted(h0, sh0, root0) && k <= |Order(h0, sh0, root0)|
    {
      && Linked() && Rooted(nodes, shape, root)
      && Order(nodes, shape, root) == InsertAt(Order(h0, sh0, root0), k, nw)
    }





    /** `insert_node_vert(o, nw)`: the node `nw` just made by `create_node`
        takes the place of `o`, which becomes its only child; at the end
        (`o` null) it becomes the last child of the last node, or the root
        of an empty tree.  `h0` and `sh0` are the tree before `nw` was made,
        and `o` stands at index `k` of its pre-order: `nw` enters the
        pre-order at index `k`. */
    method InsertNodeVert(o: Ptr, nw: NodeId, ghost h0: Heap<T>, ghost sh0: Shape, ghost k: nat) returns (ghost i: nat)
      requires Linked() && Rooted(h0, sh0, root) && FreshOver(h0, sh0, nw)
      requires k <= |Order(h0, sh0, root)| && o == NodeAt(Order(h0, sh0, root), k) && (o.To? ==> o.id in h0)
      modifies this
      ensures InsertedAt(h0, sh0, old(root), k, nw)
      ensures nodes.Keys == old(nodes).Keys && Values(nodes) == Values(old(nodes))
      ensures nodeCount == old(nodeCount) && nextId == old(nextId)
      ensures VertPlaced(h0, sh0, old(root), o, i, nw, root, shape.kids)
    {
      OrderComplete(h0, sh0, root);
      i := 0;
      if o != Null {
        var parent := nodes[o.id].parent;
        if parent != Null {
          i := AdoptInPlace(o.id, nw, h0, sh0, k);
        } else {
          AdoptRoot(o.id, nw, h0, sh0, k);
        }
      } else {
        VertAtEnd(nw, h0, sh0, k);
      }
    }

    /** The `end()` branch of `insert_node_vert`: `nw` becomes the last
        child of the last node, or the root of an empty tree. */
    method VertAtEnd(nw: NodeId, ghost h0: Heap<T>, ghost sh0: Shape, ghost k: nat)
      requires Linked() && Rooted(h0, sh0, root) && FreshOver(h0, sh0, nw)
      requires k == |Order(h0, sh0, root)|
      modifies this
      ensures InsertedAt(h0, sh0, old(root), k, nw)
      ensures nodes.Keys == old(nodes).Keys && Values(nodes) == Values(old(nodes))
      ensures nodeCount == old(nodeCount) && nextId == old(nextId)
      ensures old(root).To? ==> root == old(root) && AppendedTo(sh0, DeepLast(h0, sh0, old(root).id), nw, shape.kids)
      ensures old(root) == Null ==> root == To(nw) && shape.kids == sh0.kids[nw := []]
    {
      var last := FindLastNode();
      if last != Null {
        DeepLastFrame(h0, sh0, nodes, shape, root.id);
        DeepLastLeaf(h0, sh0, root.id);
        AppendAtEndOf(last.id, nw, h0, sh0, k);
      } else {
        root := To(nw);
        SingleRoot(nodes, shape, nw);
      }
    }

    /** The first branch of `insert_node_vert`: `replace(x, nw)` under the
        parent of `x`, then `nw->push_back_child(x)`. */
    method AdoptInPlace(x: NodeId, nw: NodeId, ghost h0: Heap<T>, ghost sh0: Shape, ghost k: nat) returns (ghost i: nat)
      requires Linked() && Rooted(h0, sh0, root) && FreshOver(h0, sh0, nw)
      requires k < |Order(h0, sh0, root)| && Order(h0, sh0, root)[k] == x && x in h0 && h0[x].parent.To?
      modifies this
      ensures InsertedAt(h0, sh0, old(root), k, nw) && root == old(root)
      ensures nodes.Keys == old(nodes).Keys && Values(nodes) == Values(old(nodes))
      ensures nodeCount == old(nodeCount) && nextId == old(nextId)
      ensures AdoptedAt(h0, sh0, x, i, nw, shape.kids)
    {
      ghost var h1 := nodes;
      ghost var r := root.id;
      ghost var q := h0[x].parent.id;
      assert ParentLink(h0, sh0, x);
      assert h1[r] == h0[r] && h0[r].parent == Null;
      AncLeaf(nodes, shape, q, nw);
      i := Replace(x, nw);
      ReplaceKeepsAll(h1, x, nw);
      ghost var R := Replaced(sh0.kids[q], i, nw);
      NotBelowMoved(h0, sh0, nodes, shape, x, q, nw, R);
      ghost var h2, kids2 := nodes, shape.kids;
      PushBackChild(nw, x);
      PushBackKeeps(h2, nw, x);
      assert kids2[nw] + [x] == [x];
      assert h2[r].parent == Null;
      AdoptFrom(h0, sh0, r, nodes, shape, q, i, nw, kids2[nw] + [x], k);
      FreshKidsOverride(sh0.kids, nw, q, R, [x]);
    }

    /** The second branch of `insert_node_vert`: `x` has no parent, so it is
        the root; `nw` becomes the root and `x` its child. */
    method AdoptRoot(x: NodeId, nw: NodeId, ghost h0: Heap<T>, ghost sh0: Shape, ghost k: nat)
      requires Linked() && Rooted(h0, sh0, root) && FreshOver(h0, sh0, nw)
      requires k < |Order(h0, sh0, root)| && Order(h0, sh0, root)[k] == x && x in h0 && h0[x].parent == Null
      modifies this
      ensures InsertedAt(h0, sh0, old(root), k, nw) && root == To(nw)
      ensures nodes.Keys == old(nodes).Keys && Values(nodes) == Values(old(nodes))
      ensures nodeCount == old(nodeCount) && nextId == old(nextId)
      ensures shape.kids == sh0.kids[nw := [x]]
    {
      ghost var h1 := nodes;
      ghost var r := root.id;
      assert x == r && k == 0 by {
        OrderComplete(h0, sh0, root);
        assert Order(h0, sh0, root)[0] == r;
      }
      assert ParentLink(h0, sh0, x);
      root := To(nw);
      PushBackChild(nw, x);
      PushBackKeeps(h1, nw, x);
      assert [] + [x] == [x];
      VertRoot(h0, sh0, r, nodes, shape, nw);
    }

    /** The end branches of `insert_node_vert` and `insert_node_hor`:
        `p->push_back_child(nw)` on a node `p` whose chain of last children
        ends at the last node of the pre-order (the last node itself, or its
        parent). */
    method AppendAtEndOf(p: NodeId, nw: NodeId, ghost h0: Heap<T>, ghost sh0: Shape, ghost k: nat)
      requires Linked() && Rooted(h0, sh0, root) && FreshOver(h0, sh0, nw)
      requires root.To? && p in h0 && DeepLast(h0, sh0, p) == DeepLast(h0, sh0, root.id)
      requires k == |Order(h0, sh0, root)|
      modifies this
      ensures InsertedAt(h0, sh0, old(root), k, nw) && root == old(root)
      ensures nodes.Keys == old(nodes).Keys && Values(nodes) == Values(old(nodes))
      ensures nodeCount == old(nodeCount) && nextId == old(nextId)
      ensures shape.kids == sh0.kids[p := sh0.kids[p] + [nw]][nw := []]
    {
      ghost var kp := EndBlock(h0, sh0, root.id, p);
      AttachLast(p, nw, h0, sh0, kp, k);
    }

    /** `p->push_back_child(nw)` for the node `nw` just made by
        `create_node`, with `p` at index `k` of the pre-order: `nw` enters
        the pre-order at index `t`, right after the old subtree of `p`. */
    method AttachLast(p: NodeId, nw: NodeId, ghost h0: Heap<T>, ghost sh0: Shape, ghost k: nat, ghost t: nat)
      requires Linked() && Rooted(h0, sh0, root) && FreshOver(h0, sh0, nw) && p in h0
      requires k < |Order(h0, sh0, root)| && Order(h0, sh0, root)[k] == p && t == k + |Subtree(h0, sh0, p)|
      modifies this
      ensures t <= |Order(h0, sh0, old(root))| && InsertedAt(h0, sh0, old(root), t, nw) && root == old(root)
      ensures nodes.Keys == old(nodes).Keys && Values(nodes) == Values(old(nodes))
      ensures nodeCount == old(nodeCount) && nextId == old(nextId)
      ensures shape.kids == sh0.kids[p := sh0.kids[p] + [nw]][nw := []]
    {
      ghost var h1, kids1 := nodes, shape.kids;
      ghost var r := root.id;
      assert h1[r] == h0[r] && h0[r].parent == Null;
      AncLeaf(nodes, shape, p, nw);
      PushBackChild(p, nw);
      PushBackKeeps(h1, p, nw);
      AppendUnder(h0, sh0, r, nodes, shape, p, nw, kids1[p] + [nw], k, t);
      FreshKidsSwap(sh0.kids, nw, p, sh0.kids[p] + [nw]);
    }

    /** `p->push_front_child(nw)` for the node `nw` just made by
        `create_node`, with `p` at index `k` of the pre-order: `nw` enters
        the pre-order right after `p`. */
    method AttachFirst(p: NodeId, nw: NodeId, ghost h0: Heap<T>, ghost sh0: Shape, ghost k: nat)
      requires Linked() && Rooted(h0, sh0, root) && FreshOver(h0, sh0, nw) && p in h0
      requires k < |Order(h0, sh0, root)| && Order(h0, sh0, root)[k] == p
      modifies this
      ensures InsertedAt(h0, sh0, old(root), k + 1, nw) && root == old(root)
      ensures nodes.Keys == old(nodes).Keys && Values(nodes) == Values(old(nodes))
      ensures nodeCount == old(nodeCount) && nextId == old(nextId)
      ensures shape.kids == sh0.kids[p := [nw] + sh0.kids[p]][nw := []]
    {
      ghost var h1, kids1 := nodes, shape.kids;
      ghost var r := root.id;
      assert h1[r] == h0[r] && h0[r].parent == Null;
      AncLeaf(nodes, shape, p, nw);
      PushFrontChild(p, nw);
      PushFrontKeeps(h1, p, nw);
      PrependUnder(h0, sh0, r, nodes, shape, p, nw, [nw] + kids1[p], k);
      FreshKidsSwap(sh0.kids, nw, p, [nw] + sh0.kids[p]);
    }

    /** The first branch of `insert_node_hor`: `insert_sibling(x, nw)`. */
    method SiblingBefore(x: NodeId, nw: NodeId, ghost h0: Heap<T>, ghost sh0: Shape, ghost k: nat) returns (ghost i: nat)
      requires Linked() && Rooted(h0, sh0, root) && FreshOver(h0, sh0, nw)
      requires k < |Order(h0, sh0, root)| && Order(h0, sh0, root)[k] == x && x in h0 && h0[x].parent.To?
      modifies this
      ensures InsertedAt(h0, sh0, old(root), k, nw) && root == old(root)
      ensures nodes.Keys == old(nodes).Keys && Values(nodes) == Values(old(nodes))
      ensures nodeCount == old(nodeCount) && nextId == old(nextId)
      ensures SiblingAt(h0, sh0, x, i, nw, shape.kids)
    {
      ghost var h1 := nodes;
      ghost var r := root.id;
      ghost var q := h0[x].parent.id;
      assert ParentLink(h0, sh0, x);
      assert h1[r] == h0[r] && h0[r].parent == Null;
      AncLeaf(nodes, shape, q, nw);
      i := InsertSibling(x, nw);
      InsertSiblingKeepsAll(h1, x, nw);
      SiblingFrom(h0, sh0, r, nodes, shape, q, i, nw, k);
      FreshKidsSwap(sh0.kids, nw, q, InsertAt(sh0.kids[q], i, nw));
    }

    /** `insert_node_hor(o, nw)`: the node `nw` just made by `create_node`
        joins the siblings of `o` right before it; at the end (`o` null) it
        becomes the last child of the parent of the last node, or the root of
        an empty tree.  The source dereferences a null parent when `o` is the
        root, and when `o` is null and the last node is the root; both are
        required away.  `nw` enters the pre-order at the index `k` of `o`. */
    method InsertNodeHor(o: Ptr, nw: NodeId, ghost h0: Heap<T>, ghost sh0: Shape, ghost k: nat) returns (ghost i: nat)
      requires Linked() && Rooted(h0, sh0, root) && FreshOver(h0, sh0, nw)
      requires k <= |Order(h0, sh0, root)| && o == NodeAt(Order(h0, sh0, root), k)
      requires o.To? ==> o.id in h0 && h0[o.id].parent.To?
      requires o == Null && root.To? ==> h0[root.id].lastChild.To?
      modifies this
      ensures InsertedAt(h0, sh0, old(root), k, nw)
      ensures nodes.Keys == old(nodes).Keys && Values(nodes) == Values(old(nodes))
      ensures nodeCount == old(nodeCount) && nextId == old(nextId)
      ensures HorPlaced(h0, sh0, old(root), o, i, nw, root, shape.kids)
    {
      OrderComplete(h0, sh0, root);
      i := 0;
      if o != Null {
        var parent := nodes[o.id].parent;
        assert parent != Null;
        i := SiblingBefore(o.id, nw, h0, sh0, k);
      } else {
        HorAtEnd(nw, h0, sh0, k);
      }
    }

    /** The `end()` branch of `insert_node_hor`: `nw` becomes the last
        child of the parent of the last node, or the root of an empty
        tree. */
    method HorAtEnd(nw: NodeId, ghost h0: Heap<T>, ghost sh0: Shape, ghost k: nat)
      requires Linked() && Rooted(h0, sh0, root) && FreshOver(h0, sh0, nw)
      requires k == |Order(h0, sh0, root)|
      requires root.To? ==> h0[root.id].lastChild.To?
      modifies this
      ensures InsertedAt(h0, sh0, old(root), k, nw)
      ensures root == if old(root) == Null then To(nw) else old(root)
      ensures nodes.Keys == old(nodes).Keys && Values(nodes) == Values(old(nodes))
      ensures nodeCount == old(nodeCount) && nextId == old(nextId)
      ensures old(root).To? ==> AppendedToParentOfLast(h0, sh0, old(root).id, nw, shape.kids)
      ensures old(root) == Null ==> shape.kids == sh0.kids[nw := []]
    {
      var last := FindLastNode();
      if last != Null {
        DeepLastFrame(h0, sh0, nodes, shape, root.id);
        ghost var pa := DeepLastParent(h0, sh0, root.id);
        var parent := nodes[last.id].parent;
        AppendAtEndOf(parent.id, nw, h0, sh0, k);
      } else {
        root := To(nw);
        SingleRoot(nodes, shape, nw);
      }
    }

    /** `tree::insert(vert, it, value)`: a new node holding `value` takes
        the place of the node `it` stands on, which becomes its only child;
        at `end()` it goes below the last node (or becomes the root of an
        empty tree).  `it` stands at index `k` of the pre-order, and the new
        node enters the pre-order at that index. */
    method InsertVert(it: Cursor, v: T, ghost k: nat) returns (ghost id: NodeId, ghost i: nat)
      requires Valid() && k <= |Ids()| && it.curr == NodeAt(Ids(), k) && (it.curr.To? ==> it.curr.id in nodes)
      modifies this
      ensures Valid() && id !in old(nodes) && nodes.Keys == old(nodes).Keys + {id}
      ensures Ids() == InsertAt(old(Ids()), k, id)
      ensures Values(nodes) == Values(old(nodes))[id := v]
      ensures nodeCount == old(nodeCount) + 1
      ensures VertPlaced(old(nodes), old(shape), old(root), it.curr, i, id, root, shape.kids)
    {
      var oldNode := it.curr;
      ghost var h0, sh0 := nodes, shape;
      var newNode := CreateNode(v);
      ValuesAdd(h0, newNode, Fresh(v));
      nodeCount := nodeCount + 1;
      i := InsertNodeVert(oldNode, newNode, h0, sh0, k);
      id := newNode;
    }

    /** `tree::insert(hor, it, value)`: a new node holding `value` joins the
        siblings of the node `it` stands on, right before it; at `end()` it
        becomes the last child of the last node's parent (or the root of an
        empty tree).  The source needs a parent in both cases.  `it` stands
        at index `k` of the pre-order, and the new node enters the pre-order
        at that index. */
    method InsertHor(it: Cursor, v: T, ghost k: nat) returns (ghost id: NodeId, ghost i: nat)
      requires Valid() && k <= |Ids()| && it.curr == NodeAt(Ids(), k)
      requires it.curr.To? ==> it.curr.id in nodes && nodes[it.curr.id].parent.To?
      requires it.curr == Null && root.To? ==> nodes[root.id].lastChild.To?
      modifies this
      ensures Valid() && id !in old(nodes) && nodes.Keys == old(nodes).Keys + {id}
      ensures Ids() == InsertAt(old(Ids()), k, id)
      ensures Values(nodes) == Values(old(nodes))[id := v]
      ensures nodeCount == old(nodeCount) + 1
      ensures HorPlaced(old(nodes), old(shape), old(root), it.curr, i, id, root, shape.kids)
    {
      var oldNode := it.curr;
      ghost var h0, sh0 := nodes, shape;
      var newNode := CreateNode(v);
      ValuesAdd(h0, newNode, Fresh(v));
      nodeCount := nodeCount + 1;
      i := InsertNodeHor(oldNode, newNode, h0, sh0, k);
      id := newNode;
    }

    /** `tree::append_child(parent_it, value)`: a new node holding `value`
        becomes the last child of the node `parent_it` stands on, at index
        `k` of the pre-order; it enters the pre-order right after the old
        subtree of that node. */
    method AppendChild(parentIt: Cursor, v: T, ghost k: nat) returns (ghost id: NodeId, ghost t: nat)
      requires Valid() && parentIt.curr.To? && parentIt.curr.id in nodes
      requires k < |Ids()| && Ids()[k] == parentIt.curr.id
      modifies this
      ensures Valid() && id !in old(nodes) && nodes.Keys == old(nodes).Keys + {id}
      ensures t == k + |old(SubtreeOf(parentIt.curr.id))| && t <= |old(Ids())|
      ensures Ids() == InsertAt(old(Ids()), t, id)
      ensures Values(nodes) == Values(old(nodes))[id := v]
      ensures nodeCount == old(nodeCount) + 1
      ensures shape.kids == old(shape.kids)[parentIt.curr.id := old(shape.kids[parentIt.curr.id]) + [id]][id := []]
    {
      var p := parentIt.curr.id;
      ghost var h0, sh0 := nodes, shape;
      t := k + |Subtree(h0, sh0, p)|;
      var c := CreateNode(v);
      ValuesAdd(h0, c, Fresh(v));
      nodeCount := nodeCount + 1;
      AttachLast(p, c, h0, sh0, k, t);
      id := c;
    }

    /** `tree::prepend_child(parent_it, value)`: a new node holding `value`
        becomes the first child of the node `parent_it` stands on, at index
        `k` of the pre-order; it enters the pre-order right after that
        node. */
    method PrependChild(parentIt: Cursor, v: T, ghost k: nat) returns (ghost id: NodeId)
      requires Valid() && parentIt.curr.To? && parentIt.curr.id in nodes
      requires k < |Ids()| && Ids()[k] == parentIt.curr.id
      modifies this
      ensures Valid() && id !in old(nodes) && nodes.Keys == old(nodes).Keys + {id}
      ensures Ids() == InsertAt(old(Ids()), k + 1, id)
      ensures Values(nodes) == Values(old(nodes))[id := v]
      ensures nodeCount == old(nodeCount) + 1
      ensures shape.kids == old(shape.kids)[parentIt.curr.id := [id] + old(shape.kids[parentIt.curr.id])][id := []]
    {
      var p := parentIt.curr.id;
      ghost var h0, sh0 := nodes, shape;
      var c := CreateNode(v);
      ValuesAdd(h0, c, Fresh(v));
      nodeCount := nodeCount + 1;
      AttachFirst(p, c, h0, sh0, k);
      id := c;
    }

    /** `tree::erase_subtree(node_it)`: the node `node_it` stands on, at
        index `k` of the pre-order, leaves its parent's children and its
        whole subtree is freed; `node_count` drops by the subtree's size.
        The source calls `unlink_child` on the parent, so the root cannot be
        erased.  The pre-order loses exactly the block of that subtree. */
    method EraseSubtree(it: Cursor, ghost k: nat) returns (ghost s: seq<NodeId>, ghost i: nat)
      requires Valid() && it.curr.To? && it.curr.id in nodes && nodes[it.curr.id].parent.To?
      requires k < |Ids()| && Ids()[k] == it.curr.id
      modifies this
      ensures Valid() && s == old(SubtreeOf(it.curr.id)) && root == old(root)
      ensures BlockAt(old(Ids()), k, s) && CutOut(old(Ids()), Ids(), k, |s|)
      ensures nodes.Keys == old(nodes).Keys - Elems(s)
      ensures forall n | n in nodes :: n in old(nodes) && nodes[n].value == old(nodes)[n].value
      ensures nodeCount == old(nodeCount) - |s|
      ensures CutFrom(old(nodes), old(shape), it.curr.id, i, nodes.Keys, shape.kids)
    {
      var node := it.curr.id;
      var parent := nodes[node].parent;
      ghost var h0, sh0 := nodes, shape;
      s := Subtree(h0, sh0, node);
      i := Detach(node, parent.id);
      FreeDetached(node, h0, sh0, parent.id, i, k);
    }


    /** The first step of `erase_subtree`: `unlink_child` takes `x` out of
        the children of its parent `q`, and no other node changes parent
        or value. */
    method Detach(x: NodeId, q: NodeId) returns (ghost i: nat)
      requires Valid() && x in nodes && nodes[x].parent == To(q)
      modifies this
      ensures Linked() && root == old(root) && nodeCount == old(nodeCount) && nextId == old(nextId)
      ensures q in old(nodes) && i < |old(shape.kids[q])| && old(shape.kids[q])[i] == x
      ensures nodes.Keys == old(nodes).Keys && Values(nodes) == Values(old(nodes))
      ensures nodes[x].parent == Null && root.To? && nodes[root.id].parent == Null
      ensures shape.kids == old(shape.kids)[q := Without(old(shape.kids[q]), i)]
    {
      ghost var h0 := nodes;
      assert h0[root.id].parent == Null && h0[x].parent != Null;
      i := UnlinkChild(q, x);
      UnlinkKeepsAll(h0, q, x);
    }

    /** The rest of `erase_subtree` once `x`, the child `i` of `q` at index
        `k` of the pre-order, is unlinked: its subtree is counted and freed,
        and `node_count` drops by that count. */
    method FreeDetached(x: NodeId, ghost h0: Heap<T>, ghost sh0: Shape, ghost q: NodeId, ghost i: nat, ghost k: nat)
      requires Linked() && Rooted(h0, sh0, root) && root.To? && nodeCount == |h0|
      requires x in h0 && h0[x].parent == To(q) && q in h0 && i < |sh0.kids[q]| && sh0.kids[q][i] == x
      requires nodes.Keys == h0.Keys && nodes[x].parent == Null && nodes[root.id].parent == Null
      requires Values(nodes) == Values(h0)
      requires shape.kids == sh0.kids[q := Without(sh0.kids[q], i)]
      requires k < |Order(h0, sh0, root)| && Order(h0, sh0, root)[k] == x
      modifies this
      ensures Linked() && Rooted(nodes, shape, root) && root == old(root) && nodeCount == |nodes|
      ensures BlockAt(Order(h0, sh0, root), k, Subtree(h0, sh0, x))
      ensures CutOut(Order(h0, sh0, root), Order(nodes, shape, root), k, |Subtree(h0, sh0, x)|)
      ensures nodes.Keys == h0.Keys - Elems(Subtree(h0, sh0, x))
      ensures forall n | n in nodes :: n in h0 && nodes[n].value == h0[n].value
      ensures |nodes| == |h0| - |Subtree(h0, sh0, x)|
      ensures CutFrom(h0, sh0, x, i, nodes.Keys, shape.kids)
    {
      ghost var r := root.id;
      ghost var h1, sh1 := nodes, shape;
      RemoveDetachedWF(h1, sh1, x);
      ghost var h3 := h1 - Elems(Subtree(h1, sh1, x));
      ghost var sh3 := Restrict(sh1, h3.Keys);
      EraseFrame(h0, sh0, r, h1, sh1, x, q, i, h3, sh3);
      FreedValues(h0, h1, Elems(Subtree(h1, sh1, x)));
      FreeSubtree(x);
      EraseOrder(h0, sh0, r, nodes, shape, q, i, k);
      RestrictedKids(sh0.kids, q, Without(sh0.kids[q], i), sh1, nodes.Keys);
    }

    /** `cnt = count_nodes(x)`, `clear_node_impl(x)`, `node_count -= cnt`
        on the detached `x`: its subtree leaves the heap, and the count
        still matches. */
    method FreeSubtree(x: NodeId)
      requires Linked() && x in nodes && nodes[x].parent == Null && nodeCount == |nodes|
      modifies this
      ensures nodes == old(nodes) - Elems(Subtree(old(nodes), old(shape), x))
      ensures shape == Restrict(old(shape), nodes.Keys)
      ensures Linked() && root == old(root) && nextId == old(nextId) && nodeCount == |nodes|
    {
      ghost var h1, sh1 := nodes, shape;
      var cnt := CountNodes(x);
      RemoveDetachedWF(h1, sh1, x);
      FreeCount(h1, sh1, x);
      nodeCount := nodeCount - cnt;
      ClearNode(x, h1, sh1);
      shape := Restrict(sh1, nodes.Keys);
    }

    /** `tree_storage::clear_node_impl(n)`: frees every node of the subtree
        of `n`, children first.  The subtree is the one of the heap `h0` the
        walk started on: freeing a child leaves its parent's links dangling,
        so the nodes still to be freed are only known to agree with `h0`. */
    method ClearNode(n: NodeId, ghost h0: Heap<T>, ghost sh0: Shape)
      requires WF(h0, sh0) && n in h0
      requires forall x | x in Subtree(h0, sh0, n) :: x in nodes && nodes[x] == h0[x]
      modifies this
      ensures nodes == old(nodes) - Elems(Subtree(h0, sh0, n))
      ensures root == old(root) && nodeCount == old(nodeCount) && nextId == old(nextId) && shape == old(shape)
      decreases sh0.bound - sh0.rank[n]
    {
      ghost var K := sh0.kids[n];
      assert ChildList(h0, n, K);
      SubtreeSplit(h0, sh0, n);
      if nodes[n].firstChild != Null {
        var curr := nodes[n].firstChild;
        ghost var i := 0;
        while curr != Null
          invariant i <= |K|
          invariant curr == if i < |K| then To(K[i]) else Null
          invariant nodes == old(nodes) - Elems(Forest(h0, sh0, n, i))
          invariant root == old(root) && nodeCount == old(nodeCount) && nextId == old(nextId) && shape == old(shape)
          decreases |K| - i
        {
          KidRank(h0, sh0, n, i);
          FreeStep(h0, sh0, n, i, old(nodes), nodes);
          var tmp := nodes[curr.id].nextSibling;
          ClearNode(curr.id, h0, sh0);
          curr := tmp;
          i := i + 1;
        }
      }
      FreeLast(h0, sh0, n, old(nodes), nodes);
      nodes := nodes - {n};
    }

    /** `tree::size`: the stored count, which on a valid tree is the number
        of live nodes. */
    function Size(): (r: nat)
      reads this
      ensures Valid() ==> r == |nodes|
    {
      nodeCount
    }

    /** `tree::empty`: whether there is no root, which on a valid tree means
        no live node. */
    function Empty(): (r: bool)
      reads this
      ensures Valid() ==> (r <==> nodes == map[]) && (r <==> Size() == 0)
    {
      root == Null
    }

    /** `tree_storage::clear`: frees the whole tree when there is a root;
        `root` and `nodeCount` keep their values. */
    method StorageClear()
      requires Valid()
      modifies this
      ensures Linked() && nodes == map[]
      ensures root == old(root) && nodeCount == old(nodeCount) && nextId == old(nextId)
    {
      if root != Null {
        ghost var h, sh := nodes, shape;
        OrderComplete(h, sh, root);
        ghost var gone := Elems(Subtree(h, sh, root.id));
        assert forall x | x in h :: x in gone;
        ClearNode(root.id, h, sh);
        assert nodes == h - gone;
        assert nodes.Keys == {};
      }
      shape := Shape(map[], map[], 0);
    }

    /** `tree::clear` as written: it only calls `tree_storage::clear`, so a
        tree that had nodes keeps a root that is no longer live and a size
        that counts freed nodes. */
    method Clear()
      requires Valid()
      modifies this
      ensures Linked() && nodes == map[]
      ensures root == old(root) && nodeCount == old(nodeCount) && nextId == old(nextId)
      ensures !old(Empty()) ==> !Valid() && !Empty() && Size() == old(Size()) > 0
    {
      StorageClear();
    }

    /** `tree::clear` as evidently intended: the tree is empty afterwards. */
    method ClearAndReset()
      requires Valid()
      modifies this
      ensures Valid() && nodes == map[] && Empty() && Size() == 0
    {
      StorageClear();
      root := Null;
      nodeCount := 0;
    }
  }
}
