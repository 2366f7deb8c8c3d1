/** The node record of `include/tree.h` and the well-formedness of a heap of
    such records.  A `tree_node*` is a `Ptr` into a finite heap that maps node
    identities to node records; the five link fields are kept exactly as the
    source keeps them.  Well-formedness is stated against a ghost `Shape`: the
    ordered child list of every node, and a rank that strictly grows from a
    parent to each of its children (which makes the link graph acyclic). */
module TreeLinks {

  type NodeId = int

  /** A possibly null `tree_node*`. */
  datatype Ptr = Null | To(id: NodeId)

  /** One `tree_node_impl`: its five link fields and the held value. */
  datatype Node<T> = Node(parent: Ptr, prevSibling: Ptr, nextSibling: Ptr,
                          firstChild: Ptr, lastChild: Ptr, value: T)

  /** The live nodes, as handed out by the allocator. */
  type Heap<T> = map<NodeId, Node<T>>

  /** Ghost abstraction of a heap: each node's children in order, a rank that
      grows from parent to child, and a bound above every rank. */
  datatype Shape = Shape(kids: map<NodeId, seq<NodeId>>, rank: map<NodeId, nat>, bound: nat)

  /** A node with every link null, as the value constructor builds it. */
  function Fresh<T>(v: T): Node<T> {
    Node(Null, Null, Null, Null, Null, v)
  }

  function Head(s: seq<NodeId>): Ptr {
    if s == [] then Null else To(s[0])
  }

  function Tail(s: seq<NodeId>): Ptr {
    if s == [] then Null else To(s[|s| - 1])
  }

  function Before(s: seq<NodeId>, i: nat): Ptr
    requires i < |s|
  {
    if i == 0 then Null else To(s[i - 1])
  }

  function After(s: seq<NodeId>, i: nat): Ptr
    requires i < |s|
  {
    if i == |s| - 1 then Null else To(s[i + 1])
  }

  ghost predicate Distinct(s: seq<NodeId>) {
    forall i, j | 0 <= i < j < |s| :: s[i] != s[j]
  }

  /** `s` is the child list of `p`: `first_child`/`last_child` are its ends,
      and its members form a doubly linked sibling list whose every member has
      `p` as parent. */
  ghost predicate ChildList<T>(h: Heap<T>, p: NodeId, s: seq<NodeId>) {
    && p in h
    && h[p].firstChild == Head(s)
    && h[p].lastChild == Tail(s)
    && Distinct(s)
    && forall i {:trigger h[s[i]]} {:trigger s[i] in h} | 0 <= i < |s| ::
         && s[i] in h
         && h[s[i]].parent == To(p)
         && h[s[i]].prevSibling == Before(s, i)
         && h[s[i]].nextSibling == After(s, i)
  }

  /** A node without a parent has no siblings; a node with a parent is listed
      among that parent's children and ranks below it. */
  ghost predicate ParentLink<T>(h: Heap<T>, sh: Shape, n: NodeId) {
    && n in h
    && n in sh.rank
    && match h[n].parent
       case Null => h[n].prevSibling == Null && h[n].nextSibling == Null
       case To(p) => p in h && p in sh.kids && p in sh.rank && n in sh.kids[p] && sh.rank[p] < sh.rank[n]
  }

  ghost predicate WF<T>(h: Heap<T>, sh: Shape) {
    && h.Keys == sh.kids.Keys
    && h.Keys == sh.rank.Keys
    && (forall n | n in h :: sh.rank[n] < sh.bound)
    && (forall n {:trigger ChildList(h, n, sh.kids[n])} | n in h :: ChildList(h, n, sh.kids[n]))
    && (forall n {:trigger ParentLink(h, sh, n)} | n in h :: ParentLink(h, sh, n))
  }

  /** A node that is neither linked into a sibling list nor under a parent. */
  predicate Detached<T>(h: Heap<T>, n: NodeId)
    requires n in h
  {
    h[n].parent == Null && h[n].prevSibling == Null && h[n].nextSibling == Null
  }

  /** `a` is `x` or one of its ancestors. */
  ghost predicate Anc<T>(h: Heap<T>, sh: Shape, x: NodeId, a: NodeId)
    requires WF(h, sh) && x in h
    decreases sh.rank[x]
  {
    assert ParentLink(h, sh, x);
    x == a || (h[x].parent.To? && Anc(h, sh, h[x].parent.id, a))
  }

  /** The shape after the detached node `c` has been hung below some node that
      is not one of its descendants: the child lists become `kids`, and the
      ranks of `c`'s subtree are raised above every other rank. */
  ghost function Lift<T>(h: Heap<T>, sh: Shape, kids: map<NodeId, seq<NodeId>>, c: NodeId): Shape
    requires WF(h, sh)
  {
    Shape(kids,
          map n | n in sh.rank :: if Anc(h, sh, n, c) then sh.rank[n] + sh.bound else sh.rank[n],
          2 * sh.bound)
  }

  /** Every link of a well-formed heap points to a live node. */
  lemma Closed<T>(h: Heap<T>, sh: Shape, n: NodeId)
    requires WF(h, sh) && n in h
    ensures h[n].parent.To? ==> h[n].parent.id in h
    ensures h[n].prevSibling.To? ==> h[n].prevSibling.id in h && h[n].parent.To?
    ensures h[n].nextSibling.To? ==> h[n].nextSibling.id in h && h[n].parent.To?
    ensures h[n].firstChild.To? ==> h[n].firstChild.id in h
    ensures h[n].lastChild.To? ==> h[n].lastChild.id in h
  {
    assert ParentLink(h, sh, n);
    assert ChildList(h, n, sh.kids[n]);
    if h[n].parent.To? {
      var p := h[n].parent.id;
      assert ChildList(h, p, sh.kids[p]);
      var s := sh.kids[p];
      var i :| 0 <= i < |s| && s[i] == n;
    }
  }

  /** The position of a child in its parent's list. */
  lemma ChildIndex<T>(h: Heap<T>, sh: Shape, n: NodeId) returns (i: nat)
    requires WF(h, sh) && n in h && h[n].parent.To?
    ensures h[n].parent.id in h
    ensures i < |sh.kids[h[n].parent.id]| && sh.kids[h[n].parent.id][i] == n
    ensures h[n].prevSibling == Before(sh.kids[h[n].parent.id], i)
    ensures h[n].nextSibling == After(sh.kids[h[n].parent.id], i)
  {
    assert ParentLink(h, sh, n);
    var p := h[n].parent.id;
    assert ChildList(h, p, sh.kids[p]);
    i :| 0 <= i < |sh.kids[p]| && sh.kids[p][i] == n;
  }

  lemma DistinctConcat(a: seq<NodeId>, b: seq<NodeId>)
    requires Distinct(a) && Distinct(b)
    requires forall x | x in a :: x !in b
    ensures Distinct(a + b)
  {
    var c := a + b;
    forall i, j | 0 <= i < j < |c|
      ensures c[i] != c[j]
    {
      if j < |a| {
        assert c[i] == a[i] && c[j] == a[j];
      } else if i >= |a| {
        assert c[i] == b[i - |a|] && c[j] == b[j - |a|];
      } else {
        assert c[i] == a[i] && c[j] == b[j - |a|] && a[i] in a;
      }
    }
  }
}
