/** Facts about the node sets of subtrees, used by the operations of
    `tree` that count, free or cut off a whole subtree. */
module Subtrees {
  import opened TreeLinks
  import opened PreOrder
  import opened Linkage

  /** The pre-order of the first `i + 1` children extends that of the first
      `i` by the subtree of child `i`, which shares no node with it; all of
      them lie in the subtree of `p`. */
  lemma {:induction false} ForestStep<T>(h: Heap<T>, sh: Shape, p: NodeId, i: nat)
    requires WF(h, sh) && p in h && i < |sh.kids[p]|
    ensures sh.kids[p][i] in h
    ensures Forest(h, sh, p, i + 1) == Forest(h, sh, p, i) + Subtree(h, sh, sh.kids[p][i])
    ensures Elems(Forest(h, sh, p, i + 1)) == Elems(Forest(h, sh, p, i)) + Elems(Subtree(h, sh, sh.kids[p][i]))
    ensures forall x | x in Subtree(h, sh, sh.kids[p][i]) :: x !in Forest(h, sh, p, i)
    ensures forall x | x in Forest(h, sh, p, i + 1) :: x in Subtree(h, sh, p)
  {
    KidRank(h, sh, p, i);
    var c := sh.kids[p][i];
    var f := Forest(h, sh, p, i);
    var t := Subtree(h, sh, c);
    var g := Forest(h, sh, p, i + 1);
    assert g == f + t;
    ForestDistinct(h, sh, p, i + 1);
    forall x | x in t
      ensures x !in f
    {
      var b :| 0 <= b < |t| && t[b] == x;
      assert g[|f| + b] == x;
      forall a | 0 <= a < |f|
        ensures f[a] != x
      {
        assert g[a] == f[a];
      }
    }
    forall x | x in g
      ensures x in Subtree(h, sh, p)
    {
      var j := ForestMember(h, sh, p, i + 1, x);
      ForestHas(h, sh, p, |sh.kids[p]|, j, x);
    }
  }

  /** The nodes of a subtree: its root and those of the children's subtrees,
      the root not among the latter. */
  lemma {:induction false} SubtreeSplit<T>(h: Heap<T>, sh: Shape, n: NodeId)
    requires WF(h, sh) && n in h
    ensures Elems(Subtree(h, sh, n)) == {n} + Elems(Forest(h, sh, n, |sh.kids[n]|))
    ensures n !in Forest(h, sh, n, |sh.kids[n]|)
    ensures Forest(h, sh, n, 0) == []
  {
    SubtreeDistinct(h, sh, n);
    var t := Subtree(h, sh, n);
    var f := Forest(h, sh, n, |sh.kids[n]|);
    assert t == [n] + f;
    forall a | 0 <= a < |f|
      ensures f[a] != n
    {
      assert t[a + 1] == f[a];
    }
  }

  /** One round of the sibling walk of `clear_node_impl`: `m` is `m0` with
      the subtrees of the first `i` children of `n` freed, and `m0` agrees
      with `h0` on the subtree of `n`.  Then the subtree of child `i` is still
      intact in `m`, and freeing it frees the first `i + 1` subtrees. */
  lemma {:induction false} FreeStep<T>(h0: Heap<T>, sh0: Shape, n: NodeId, i: nat, m0: Heap<T>, m: Heap<T>)
    requires WF(h0, sh0) && n in h0 && i < |sh0.kids[n]|
    requires forall x | x in Subtree(h0, sh0, n) :: x in m0 && m0[x] == h0[x]
    requires m == m0 - Elems(Forest(h0, sh0, n, i))
    ensures sh0.kids[n][i] in h0
    ensures forall x | x in Subtree(h0, sh0, sh0.kids[n][i]) :: x in m && m[x] == h0[x]
    ensures m - Elems(Subtree(h0, sh0, sh0.kids[n][i])) == m0 - Elems(Forest(h0, sh0, n, i + 1))
  {
    ForestStep(h0, sh0, n, i);
    var c := sh0.kids[n][i];
    forall x | x in Subtree(h0, sh0, c)
      ensures x in m && m[x] == h0[x]
    {
      assert x in Forest(h0, sh0, n, i + 1);
    }
  }

  /** The last step of `clear_node_impl`: freeing `n` after its children's
      subtrees frees its whole subtree. */
  lemma {:induction false} FreeLast<T>(h0: Heap<T>, sh0: Shape, n: NodeId, m0: Heap<T>, m: Heap<T>)
    requires WF(h0, sh0) && n in h0
    requires m == m0 - Elems(Forest(h0, sh0, n, |sh0.kids[n]|))
    ensures m - {n} == m0 - Elems(Subtree(h0, sh0, n))
  {
    SubtreeSplit(h0, sh0, n);
  }
}
