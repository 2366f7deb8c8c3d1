/** Pre-order of a well-formed heap, and the two link-level steps that the
    iterator of `include/tree.h` takes: `Succ` (what `operator++` computes)
    and `Pred` (what `operator--` computes for its trailing pointer).  The
    lemmas show that they walk the pre-order sequence forward and backward. */
module PreOrder {
  import opened TreeLinks

  /** Pre-order of the subtree of `n`: `n`, then each child's subtree. */
  ghost function Subtree<T>(h: Heap<T>, sh: Shape, n: NodeId): (r: seq<NodeId>)
    requires WF(h, sh) && n in h
    ensures |r| >= 1 && r[0] == n
    ensures forall j | 0 <= j < |r| :: r[j] in h
    decreases sh.bound - sh.rank[n], 1
  {
    [n] + Forest(h, sh, n, |sh.kids[n]|)
  }

  /** Pre-order of the subtrees of the first `i` children of `p`, in order. */
  ghost function Forest<T>(h: Heap<T>, sh: Shape, p: NodeId, i: nat): (r: seq<NodeId>)
    requires WF(h, sh) && p in h && i <= |sh.kids[p]|
    ensures i > 0 ==> |r| > 0 && r[0] == sh.kids[p][0]
    ensures forall j | 0 <= j < |r| :: r[j] in h
    decreases sh.bound - sh.rank[p], 0, i
  {
    if i == 0 then []
    else
      var c := sh.kids[p][i - 1];
      KidRank(h, sh, p, i - 1);
      Forest(h, sh, p, i - 1) + Subtree(h, sh, c)
  }

  /** A child is live, has its parent's link, and ranks above its parent. */
  lemma KidRank<T>(h: Heap<T>, sh: Shape, p: NodeId, i: nat)
    requires WF(h, sh) && p in h && i < |sh.kids[p]|
    ensures sh.kids[p][i] in h && h[sh.kids[p][i]].parent == To(p)
    ensures sh.rank[p] < sh.rank[sh.kids[p][i]] < sh.bound
    ensures h[sh.kids[p][i]].prevSibling == Before(sh.kids[p], i)
    ensures h[sh.kids[p][i]].nextSibling == After(sh.kids[p], i)
  {
    assert ChildList(h, p, sh.kids[p]);
    assert ParentLink(h, sh, sh.kids[p][i]);
  }

  /** The end of the chain of last children below `n` (the loop of
      `find_last_node` and of `operator--`). */
  ghost function DeepLast<T>(h: Heap<T>, sh: Shape, n: NodeId): (r: NodeId)
    requires WF(h, sh) && n in h
    ensures r in h
    decreases sh.bound - sh.rank[n]
  {
    assert ChildList(h, n, sh.kids[n]);
    match h[n].lastChild
    case Null => n
    case To(c) =>
      KidRank(h, sh, n, |sh.kids[n]| - 1);
      DeepLast(h, sh, c)
  }

  /** The next sibling of the nearest ancestor-or-self of `x` that has one. */
  ghost function Up<T>(h: Heap<T>, sh: Shape, x: NodeId): Ptr
    requires WF(h, sh) && x in h
    decreases sh.rank[x]
  {
    assert ParentLink(h, sh, x);
    if h[x].nextSibling.To? then h[x].nextSibling
    else match h[x].parent
      case Null => Null
      case To(p) => Up(h, sh, p)
  }

  /** The node `operator++` moves to from `x`. */
  ghost function Succ<T>(h: Heap<T>, sh: Shape, x: NodeId): Ptr
    requires WF(h, sh) && x in h
  {
    if h[x].firstChild.To? then h[x].firstChild else Up(h, sh, x)
  }

  /** The node `operator--` takes as the new trailing pointer when it steps
      back onto `x`. */
  ghost function Pred<T>(h: Heap<T>, sh: Shape, x: NodeId): Ptr
    requires WF(h, sh) && x in h
  {
    Closed(h, sh, x);
    match h[x].prevSibling
    case To(s) => To(DeepLast(h, sh, s))
    case Null => h[x].parent
  }

  /** Inside the pre-order of a subtree, `Succ` moves to the next element;
      from the last element it climbs out to `Up(n)`. */
  lemma {:induction false} SuccInSubtree<T>(h: Heap<T>, sh: Shape, n: NodeId)
    requires WF(h, sh) && n in h
    ensures Subtree(h, sh, n)[0] == n
    ensures forall j | 0 <= j < |Subtree(h, sh, n)| - 1 ::
              Succ(h, sh, Subtree(h, sh, n)[j]) == To(Subtree(h, sh, n)[j + 1])
    ensures Succ(h, sh, Subtree(h, sh, n)[|Subtree(h, sh, n)| - 1]) == Up(h, sh, n)
    decreases sh.bound - sh.rank[n], 1
  {
    var s := sh.kids[n];
    assert ChildList(h, n, s);
    if s == [] {
      assert Subtree(h, sh, n) == [n];
    } else {
      var k := |s|;
      KidRank(h, sh, n, k - 1);
      SuccInForest(h, sh, n, k);
      var f := Forest(h, sh, n, k);
      var t := Subtree(h, sh, n);
      assert t == [n] + f;
      assert Succ(h, sh, n) == To(f[0]);
      forall j | 0 <= j < |t| - 1
        ensures Succ(h, sh, t[j]) == To(t[j + 1])
      {
        if j > 0 {
          assert t[j] == f[j - 1] && t[j + 1] == f[j];
        }
      }
      assert Up(h, sh, s[k - 1]) == Up(h, sh, n);
    }
  }

  /** The forest of the first `i` children starts with the first child, is
      walked by `Succ`, and is left towards `Up` of its last tree's root. */
  lemma {:induction false} SuccInForest<T>(h: Heap<T>, sh: Shape, p: NodeId, i: nat)
    requires WF(h, sh) && p in h && 1 <= i <= |sh.kids[p]|
    ensures |Forest(h, sh, p, i)| > 0 && Forest(h, sh, p, i)[0] == sh.kids[p][0]
    ensures forall j | 0 <= j < |Forest(h, sh, p, i)| - 1 ::
              Succ(h, sh, Forest(h, sh, p, i)[j]) == To(Forest(h, sh, p, i)[j + 1])
    ensures Succ(h, sh, Forest(h, sh, p, i)[|Forest(h, sh, p, i)| - 1]) == Up(h, sh, sh.kids[p][i - 1])
    decreases sh.bound - sh.rank[p], 0, i
  {
    var s := sh.kids[p];
    KidRank(h, sh, p, i - 1);
    var c := s[i - 1];
    SuccInSubtree(h, sh, c);
    var t := Subtree(h, sh, c);
    var f := Forest(h, sh, p, i);
    if i == 1 {
      assert f == t;
    } else {
      SuccInForest(h, sh, p, i - 1);
      var g := Forest(h, sh, p, i - 1);
      assert f == g + t;
      KidRank(h, sh, p, i - 2);
      assert Up(h, sh, s[i - 2]) == To(c);
      forall j | 0 <= j < |f| - 1
        ensures Succ(h, sh, f[j]) == To(f[j + 1])
      {
        if j < |g| - 1 {
          assert f[j] == g[j] && f[j + 1] == g[j + 1];
        } else if j == |g| - 1 {
          assert f[j] == g[j] && f[j + 1] == t[0];
        } else {
          assert f[j] == t[j - |g|] && f[j + 1] == t[j + 1 - |g|];
        }
      }
    }
  }

  /** Inside the pre-order of a subtree, `Pred` moves to the previous
      element, and the last element is the end of the last-child chain. */
  lemma {:induction false} PredInSubtree<T>(h: Heap<T>, sh: Shape, n: NodeId)
    requires WF(h, sh) && n in h
    ensures forall j | 0 < j < |Subtree(h, sh, n)| ::
              Pred(h, sh, Subtree(h, sh, n)[j]) == To(Subtree(h, sh, n)[j - 1])
    ensures Subtree(h, sh, n)[|Subtree(h, sh, n)| - 1] == DeepLast(h, sh, n)
    decreases sh.bound - sh.rank[n], 1
  {
    var s := sh.kids[n];
    assert ChildList(h, n, s);
    if s == [] {
      assert Subtree(h, sh, n) == [n];
    } else {
      var k := |s|;
      KidRank(h, sh, n, k - 1);
      KidRank(h, sh, n, 0);
      PredInForest(h, sh, n, k);
      var f := Forest(h, sh, n, k);
      var t := Subtree(h, sh, n);
      assert t == [n] + f;
      assert Pred(h, sh, f[0]) == To(n);
      forall j | 0 < j < |t|
        ensures Pred(h, sh, t[j]) == To(t[j - 1])
      {
        if j > 1 {
          assert t[j] == f[j - 1] && t[j - 1] == f[j - 2];
        }
      }
      assert DeepLast(h, sh, n) == DeepLast(h, sh, s[k - 1]);
    }
  }

  /** The forest of the first `i` children is walked backwards by `Pred`,
      and ends at the end of the last-child chain of its last tree's root. */
  lemma {:induction false} PredInForest<T>(h: Heap<T>, sh: Shape, p: NodeId, i: nat)
    requires WF(h, sh) && p in h && 1 <= i <= |sh.kids[p]|
    ensures |Forest(h, sh, p, i)| > 0
    ensures forall j | 0 < j < |Forest(h, sh, p, i)| ::
              Pred(h, sh, Forest(h, sh, p, i)[j]) == To(Forest(h, sh, p, i)[j - 1])
    ensures Forest(h, sh, p, i)[|Forest(h, sh, p, i)| - 1] == DeepLast(h, sh, sh.kids[p][i - 1])
    decreases sh.bound - sh.rank[p], 0, i
  {
    var s := sh.kids[p];
    KidRank(h, sh, p, i - 1);
    var c := s[i - 1];
    PredInSubtree(h, sh, c);
    var t := Subtree(h, sh, c);
    var f := Forest(h, sh, p, i);
    if i == 1 {
      assert Forest(h, sh, p, 0) == [];
      assert f == t;
    } else {
      PredInForest(h, sh, p, i - 1);
      var g := Forest(h, sh, p, i - 1);
      assert f == g + t;
      PredOfKid(h, sh, p, i - 1);
      PredJoin(h, sh, g, t);
    }
  }

  /** `Pred` of a child that has a previous sibling is the end of the
      last-child chain of that sibling. */
  lemma PredOfKid<T>(h: Heap<T>, sh: Shape, p: NodeId, k: nat)
    requires WF(h, sh) && p in h && 0 < k < |sh.kids[p]|
    ensures sh.kids[p][k] in h && sh.kids[p][k - 1] in h
    ensures Pred(h, sh, sh.kids[p][k]) == To(DeepLast(h, sh, sh.kids[p][k - 1]))
  {
    KidRank(h, sh, p, k);
    KidRank(h, sh, p, k - 1);
  }

  /** Two pieces walked backwards by `Pred`, the second stepping back onto
      the end of the first, are walked backwards as one. */
  lemma PredJoin<T>(h: Heap<T>, sh: Shape, g: seq<NodeId>, t: seq<NodeId>)
    requires WF(h, sh) && |g| > 0 && |t| > 0
    requires forall j | 0 <= j < |g| :: g[j] in h
    requires forall j | 0 <= j < |t| :: t[j] in h
    requires forall j | 0 < j < |g| :: Pred(h, sh, g[j]) == To(g[j - 1])
    requires forall j | 0 < j < |t| :: Pred(h, sh, t[j]) == To(t[j - 1])
    requires Pred(h, sh, t[0]) == To(g[|g| - 1])
    ensures forall j | 0 < j < |g + t| :: (g + t)[j] in h && Pred(h, sh, (g + t)[j]) == To((g + t)[j - 1])
  {
    var f := g + t;
    forall j | 0 < j < |f|
      ensures f[j] in h && Pred(h, sh, f[j]) == To(f[j - 1])
    {
      if j < |g| {
        assert f[j] == g[j] && f[j - 1] == g[j - 1];
      } else if j == |g| {
        assert f[j] == t[0] && f[j - 1] == g[|g| - 1];
      } else {
        assert f[j] == t[j - |g|] && f[j - 1] == t[j - 1 - |g|];
      }
    }
  }

  /** An ancestor never ranks above its descendant. */
  lemma {:induction false} AncRank<T>(h: Heap<T>, sh: Shape, x: NodeId, a: NodeId)
    requires WF(h, sh) && x in h && Anc(h, sh, x, a)
    ensures a in h && sh.rank[a] <= sh.rank[x]
    ensures a != x ==> sh.rank[a] < sh.rank[x]
    decreases sh.rank[x]
  {
    assert ParentLink(h, sh, x);
    if x != a {
      AncRank(h, sh, h[x].parent.id, a);
    }
  }

  /** Whatever lies below a child of `n` lies below `n`. */
  lemma {:induction false} AncStep<T>(h: Heap<T>, sh: Shape, y: NodeId, k: NodeId, n: NodeId)
    requires WF(h, sh) && y in h && k in h && h[k].parent == To(n) && Anc(h, sh, y, k)
    ensures Anc(h, sh, y, n)
    decreases sh.rank[y]
  {
    assert ParentLink(h, sh, y);
    assert ParentLink(h, sh, k);
    if y != k {
      AncStep(h, sh, h[y].parent.id, k, n);
    }
  }

  /** Two children of the same node have no common descendant. */
  lemma {:induction false} AncSiblings<T>(h: Heap<T>, sh: Shape, y: NodeId, a: NodeId, b: NodeId)
    requires WF(h, sh) && y in h && a in h && b in h
    requires h[a].parent.To? && h[a].parent == h[b].parent
    requires Anc(h, sh, y, a) && Anc(h, sh, y, b)
    ensures a == b
    decreases sh.rank[y]
  {
    assert ParentLink(h, sh, y);
    assert ParentLink(h, sh, a);
    assert ParentLink(h, sh, b);
    var n := h[a].parent.id;
    if y == a {
      if a != b {
        AncRank(h, sh, n, b);
      }
    } else if y == b {
      AncRank(h, sh, n, a);
    } else {
      AncSiblings(h, sh, h[y].parent.id, a, b);
    }
  }

  /** A node without children is nobody's proper ancestor. */
  lemma {:induction false} AncLeaf<T>(h: Heap<T>, sh: Shape, x: NodeId, a: NodeId)
    requires WF(h, sh) && x in h && a in h && sh.kids[a] == [] && x != a
    ensures !Anc(h, sh, x, a)
    decreases sh.rank[x]
  {
    assert ParentLink(h, sh, x);
    if h[x].parent.To? {
      var p := h[x].parent.id;
      if p != a {
        AncLeaf(h, sh, p, a);
      }
    }
  }

  /** Membership in a forest is membership in one of its trees. */
  lemma {:induction false} ForestMember<T>(h: Heap<T>, sh: Shape, p: NodeId, i: nat, x: NodeId) returns (j: nat)
    requires WF(h, sh) && p in h && i <= |sh.kids[p]| && x in Forest(h, sh, p, i)
    ensures j < i && sh.kids[p][j] in h && x in Subtree(h, sh, sh.kids[p][j])
    decreases i
  {
    KidRank(h, sh, p, i - 1);
    if x in Subtree(h, sh, sh.kids[p][i - 1]) {
      j := i - 1;
    } else {
      j := ForestMember(h, sh, p, i - 1, x);
    }
  }

  /** Every tree of a forest is part of it. */
  lemma {:induction false} ForestHas<T>(h: Heap<T>, sh: Shape, p: NodeId, i: nat, j: nat, x: NodeId)
    requires WF(h, sh) && p in h && j < i <= |sh.kids[p]|
    requires sh.kids[p][j] in h && x in Subtree(h, sh, sh.kids[p][j])
    ensures x in Forest(h, sh, p, i)
    decreases i
  {
    KidRank(h, sh, p, i - 1);
    if j < i - 1 {
      ForestHas(h, sh, p, i - 1, j, x);
    }
  }

  /** Everything in the subtree of `n` has `n` as ancestor-or-self. */
  lemma {:induction false} SubtreeAnc<T>(h: Heap<T>, sh: Shape, n: NodeId, y: NodeId)
    requires WF(h, sh) && n in h && y in Subtree(h, sh, n)
    ensures y in h && Anc(h, sh, y, n)
    decreases sh.bound - sh.rank[n]
  {
    if y != n {
      var j := ForestMember(h, sh, n, |sh.kids[n]|, y);
      KidRank(h, sh, n, j);
      SubtreeAnc(h, sh, sh.kids[n][j], y);
      AncStep(h, sh, y, sh.kids[n][j], n);
    }
  }

  /** The subtree of `n` is closed under taking children. */
  lemma {:induction false} KidInSubtree<T>(h: Heap<T>, sh: Shape, n: NodeId, p: NodeId, i: nat)
    requires WF(h, sh) && n in h && p in Subtree(h, sh, n) && p in h && i < |sh.kids[p]|
    ensures sh.kids[p][i] in Subtree(h, sh, n)
    decreases sh.bound - sh.rank[n]
  {
    KidRank(h, sh, p, i);
    if p == n {
      ForestHas(h, sh, n, |sh.kids[n]|, i, sh.kids[n][i]);
    } else {
      var j := ForestMember(h, sh, n, |sh.kids[n]|, p);
      KidRank(h, sh, n, j);
      KidInSubtree(h, sh, sh.kids[n][j], p, i);
      ForestHas(h, sh, n, |sh.kids[n]|, j, sh.kids[p][i]);
    }
  }

  /** Everything that has `n` as ancestor-or-self is in the subtree of `n`. */
  lemma {:induction false} AncSubtree<T>(h: Heap<T>, sh: Shape, n: NodeId, y: NodeId)
    requires WF(h, sh) && n in h && y in h && Anc(h, sh, y, n)
    ensures y in Subtree(h, sh, n)
    decreases sh.rank[y]
  {
    assert ParentLink(h, sh, y);
    if y != n {
      var p := h[y].parent.id;
      AncSubtree(h, sh, n, p);
      var i := ChildIndex(h, sh, y);
      KidInSubtree(h, sh, n, p, i);
    }
  }

  /** No node occurs twice in the pre-order of a subtree. */
  lemma {:induction false} SubtreeDistinct<T>(h: Heap<T>, sh: Shape, n: NodeId)
    requires WF(h, sh) && n in h
    ensures Distinct(Subtree(h, sh, n))
    decreases sh.bound - sh.rank[n], 1
  {
    var k := |sh.kids[n]|;
    ForestDistinct(h, sh, n, k);
    var f := Forest(h, sh, n, k);
    if n in f {
      var j := ForestMember(h, sh, n, k, n);
      KidRank(h, sh, n, j);
      SubtreeAnc(h, sh, sh.kids[n][j], n);
      AncRank(h, sh, n, sh.kids[n][j]);
    }
    assert Subtree(h, sh, n) == [n] + f;
  }

  lemma {:induction false} ForestDistinct<T>(h: Heap<T>, sh: Shape, p: NodeId, i: nat)
    requires WF(h, sh) && p in h && i <= |sh.kids[p]|
    ensures Distinct(Forest(h, sh, p, i))
    decreases sh.bound - sh.rank[p], 0, i
  {
    if i > 0 {
      KidRank(h, sh, p, i - 1);
      var c := sh.kids[p][i - 1];
      ForestDistinct(h, sh, p, i - 1);
      SubtreeDistinct(h, sh, c);
      var g := Forest(h, sh, p, i - 1);
      var t := Subtree(h, sh, c);
      forall x | x in g && x in t
        ensures false
      {
        var j := ForestMember(h, sh, p, i - 1, x);
        KidRank(h, sh, p, j);
        SubtreeAnc(h, sh, sh.kids[p][j], x);
        SubtreeAnc(h, sh, c, x);
        assert ChildList(h, p, sh.kids[p]);
        AncSiblings(h, sh, x, sh.kids[p][j], c);
      }
      DistinctConcat(g, t);
    }
  }

  /** A heap that is one tree: the only node without a parent is the root,
      and there is a root exactly when there are nodes. */
  ghost predicate Rooted<T>(h: Heap<T>, sh: Shape, root: Ptr) {
    && WF(h, sh)
    && (root == Null <==> h == map[])
    && (root.To? ==> root.id in h)
    && forall n | n in h :: h[n].parent == Null <==> root == To(n)
  }

  /** Pre-order of the whole tree. */
  ghost function Order<T>(h: Heap<T>, sh: Shape, root: Ptr): seq<NodeId>
    requires Rooted(h, sh, root)
  {
    if root == Null then [] else Subtree(h, sh, root.id)
  }

  /** The node at index `k` of `o`, or null one past its end. */
  function NodeAt(o: seq<NodeId>, k: nat): Ptr
    requires k <= |o|
  {
    if k < |o| then To(o[k]) else Null
  }

  /** The last node of a sequence, or null for the empty one. */
  function Last(o: seq<NodeId>): Ptr {
    if o == [] then Null else To(o[|o| - 1])
  }

  /** Every node climbs to the root. */
  lemma {:induction false} ReachesRoot<T>(h: Heap<T>, sh: Shape, root: Ptr, x: NodeId)
    requires Rooted(h, sh, root) && x in h
    ensures root.To? && Anc(h, sh, x, root.id)
    decreases sh.rank[x]
  {
    assert ParentLink(h, sh, x);
    if h[x].parent.To? {
      ReachesRoot(h, sh, root, h[x].parent.id);
    }
  }

  /** `operator++` from the node at index `j` of the pre-order reaches the
      node at index `j + 1`, and null from the last node. */
  lemma OrderSucc<T>(h: Heap<T>, sh: Shape, root: Ptr, j: nat)
    requires Rooted(h, sh, root) && j < |Order(h, sh, root)|
    ensures Order(h, sh, root)[j] in h
    ensures Succ(h, sh, Order(h, sh, root)[j]) == NodeAt(Order(h, sh, root), j + 1)
  {
    var r := root.id;
    SuccInSubtree(h, sh, r);
    assert ParentLink(h, sh, r);
  }

  /** Stepping back onto the node at index `j` of the pre-order yields the
      node at index `j - 1` as new trailing pointer, and null at the root. */
  lemma OrderPred<T>(h: Heap<T>, sh: Shape, root: Ptr, j: nat)
    requires Rooted(h, sh, root) && j < |Order(h, sh, root)|
    ensures Order(h, sh, root)[j] in h
    ensures Pred(h, sh, Order(h, sh, root)[j]) == if j == 0 then Null else To(Order(h, sh, root)[j - 1])
  {
    var r := root.id;
    PredInSubtree(h, sh, r);
    assert ParentLink(h, sh, r);
  }

  /** The last node of the pre-order ends the chain of last children from
      the root (what `find_last_node` returns). */
  lemma OrderLast<T>(h: Heap<T>, sh: Shape, root: Ptr)
    requires Rooted(h, sh, root) && root.To?
    ensures |Order(h, sh, root)| > 0
    ensures Order(h, sh, root)[|Order(h, sh, root)| - 1] == DeepLast(h, sh, root.id)
  {
    PredInSubtree(h, sh, root.id);
  }

  /** The pre-order visits every live node exactly once. */
  lemma OrderComplete<T>(h: Heap<T>, sh: Shape, root: Ptr)
    requires Rooted(h, sh, root)
    ensures Distinct(Order(h, sh, root))
    ensures forall x | x in h :: x in Order(h, sh, root)
    ensures forall j | 0 <= j < |Order(h, sh, root)| :: Order(h, sh, root)[j] in h
    ensures |Order(h, sh, root)| == |h|
  {
    var o := Order(h, sh, root);
    if root.To? {
      SubtreeDistinct(h, sh, root.id);
      forall x | x in h
        ensures x in o
      {
        ReachesRoot(h, sh, root, x);
        AncSubtree(h, sh, root.id, x);
      }
    }
    assert Elems(o) == h.Keys;
    DistinctCard(o);
  }

  /** The set of nodes a sequence mentions. */
  ghost function Elems(s: seq<NodeId>): set<NodeId> {
    set x | x in s
  }

  lemma {:induction false} DistinctCard(s: seq<NodeId>)
    requires Distinct(s)
    ensures |Elems(s)| == |s|
  {
    if s != [] {
      var t := s[1..];
      assert Distinct(t) by {
        forall i, j | 0 <= i < j < |t| ensures t[i] != t[j] {
          assert t[i] == s[i + 1] && t[j] == s[j + 1];
        }
      }
      DistinctCard(t);
      assert s[0] !in t by {
        forall j | 0 <= j < |t| ensures t[j] != s[0] {
          assert t[j] == s[j + 1];
        }
      }
      assert Elems(s) == Elems(t) + {s[0]};
    }
  }
}
