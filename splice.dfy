/** How the pre-order of a subtree changes when the child lists change only
    inside one of its subtrees: the pre-order of that inner subtree is
    replaced as one block, and the rest stays as it was. */
module Splice {
  import opened TreeLinks
  import opened PreOrder
  import opened Subtrees

  /** The pre-orders of the subtrees of the nodes of `l`, one after another. */
  ghost function Blocks<T>(h: Heap<T>, sh: Shape, l: seq<NodeId>): seq<NodeId>
    requires WF(h, sh) && forall x | x in l :: x in h
    decreases |l|
  {
    if l == [] then [] else Blocks(h, sh, l[..|l| - 1]) + Subtree(h, sh, l[|l| - 1])
  }

  /** Every node of `x`'s subtree has `x` as an ancestor-or-self, and every
      node of `y`'s subtree lies in the subtree of any ancestor of `y`. */
  lemma {:induction false} AncTrans<T>(h: Heap<T>, sh: Shape, y: NodeId, x: NodeId, a: NodeId)
    requires WF(h, sh) && y in h && x in h && Anc(h, sh, y, x) && Anc(h, sh, x, a)
    ensures Anc(h, sh, y, a)
    decreases sh.rank[x]
  {
    if x != a {
      assert ParentLink(h, sh, x);
      var px := h[x].parent.id;
      AncStep(h, sh, y, x, px);
      AncTrans(h, sh, y, px, a);
    }
  }

  /** A subtree inside the subtree of `m` contributes only nodes of it. */
  lemma {:induction false} SubtreeWithin<T>(h: Heap<T>, sh: Shape, m: NodeId, x: NodeId)
    requires WF(h, sh) && m in h && x in Subtree(h, sh, m)
    ensures x in h && forall y | y in Subtree(h, sh, x) :: y in Subtree(h, sh, m)
  {
    SubtreeAnc(h, sh, m, x);
    forall y | y in Subtree(h, sh, x)
      ensures y in Subtree(h, sh, m)
    {
      SubtreeAnc(h, sh, x, y);
      AncTrans(h, sh, y, x, m);
      AncSubtree(h, sh, m, y);
    }
  }

  lemma {:induction false} ForestBlocks<T>(h: Heap<T>, sh: Shape, p: NodeId, i: nat)
    requires WF(h, sh) && p in h && i <= |sh.kids[p]|
    ensures forall x | x in sh.kids[p][..i] :: x in h
    ensures Forest(h, sh, p, i) == Blocks(h, sh, sh.kids[p][..i])
    decreases i
  {
    assert ChildList(h, p, sh.kids[p]);
    if i > 0 {
      ForestBlocks(h, sh, p, i - 1);
      var l := sh.kids[p][..i];
      assert l[..i - 1] == sh.kids[p][..i - 1];
      assert l[i - 1] == sh.kids[p][i - 1];
    }
  }

  /** The pre-order of a subtree: its root, then the blocks of its children. */
  lemma {:induction false} SubtreeBlocks<T>(h: Heap<T>, sh: Shape, n: NodeId)
    requires WF(h, sh) && n in h
    ensures forall x | x in sh.kids[n] :: x in h
    ensures Subtree(h, sh, n) == [n] + Blocks(h, sh, sh.kids[n])
  {
    ForestBlocks(h, sh, n, |sh.kids[n]|);
    assert sh.kids[n][..|sh.kids[n]|] == sh.kids[n];
  }

  lemma {:induction false} BlocksConcat<T>(h: Heap<T>, sh: Shape, a: seq<NodeId>, b: seq<NodeId>)
    requires WF(h, sh) && (forall x | x in a :: x in h) && (forall x | x in b :: x in h)
    ensures forall x | x in a + b :: x in h
    ensures Blocks(h, sh, a + b) == Blocks(h, sh, a) + Blocks(h, sh, b)
    decreases |b|
  {
    if b != [] {
      var b' := b[..|b| - 1];
      BlocksConcat(h, sh, a, b');
      assert (a + b)[..|a + b| - 1] == a + b';
      assert (a + b)[|a + b| - 1] == b[|b| - 1];
    } else {
      assert a + b == a;
    }
  }

  lemma {:induction false} BlocksOne<T>(h: Heap<T>, sh: Shape, c: NodeId)
    requires WF(h, sh) && c in h
    ensures Blocks(h, sh, [c]) == Subtree(h, sh, c)
  {
    assert [c][..0] == [];
  }

  /** Blocks agree in two heaps when every listed node's subtree does. */
  lemma {:induction false} BlocksFrame<T>(h: Heap<T>, sh: Shape, h': Heap<T>, sh': Shape, l: seq<NodeId>)
    requires WF(h, sh) && WF(h', sh')
    requires forall x | x in l :: x in h && x in h' && Subtree(h', sh', x) == Subtree(h, sh, x)
    ensures Blocks(h', sh', l) == Blocks(h, sh, l)
    decreases |l|
  {
    if l != [] {
      BlocksFrame(h, sh, h', sh', l[..|l| - 1]);
    }
  }

  /** Nodes whose child lists are kept in the heap `h'` (with shape `sh'`). */
  ghost predicate Kept<T>(h': Heap<T>, sh': Shape, sh: Shape, x: NodeId) {
    x in h' && x in sh'.kids && x in sh.kids && sh'.kids[x] == sh.kids[x]
  }

  /** A subtree whose nodes all keep their child lists keeps its pre-order. */
  lemma {:induction false} SubtreeFrame<T>(h: Heap<T>, sh: Shape, h': Heap<T>, sh': Shape, m: NodeId)
    requires WF(h, sh) && WF(h', sh') && m in h
    requires forall x | x in Subtree(h, sh, m) :: Kept(h', sh', sh, x)
    ensures m in h' && Subtree(h', sh', m) == Subtree(h, sh, m)
    decreases sh.bound - sh.rank[m]
  {
    assert Kept(h', sh', sh, m);
    var k := sh.kids[m];
    SubtreeBlocks(h, sh, m);
    SubtreeBlocks(h', sh', m);
    forall x | x in k
      ensures x in h && x in h' && Subtree(h', sh', x) == Subtree(h, sh, x)
    {
      var i :| 0 <= i < |k| && k[i] == x;
      KidRank(h, sh, m, i);
      KidInSubtree(h, sh, m, m, i);
      SubtreeWithin(h, sh, m, x);
      SubtreeFrame(h, sh, h', sh', x);
    }
    BlocksFrame(h, sh, h', sh', k);
  }

  /** Every node outside the subtree of `p` keeps its child list. */
  ghost predicate OutsideKept<T>(h: Heap<T>, sh: Shape, h': Heap<T>, sh': Shape, p: NodeId)
    requires WF(h, sh) && p in h
  {
    forall x | x in h && x !in Subtree(h, sh, p) :: Kept(h', sh', sh, x)
  }

  /** The pre-order of a subtree around its child at index `j`. */
  lemma {:induction false} SubtreeAround<T>(h: Heap<T>, sh: Shape, a: NodeId, j: nat)
    requires WF(h, sh) && a in h && j < |sh.kids[a]|
    ensures sh.kids[a][j] in h
    ensures forall x | x in sh.kids[a][..j] :: x in h
    ensures forall x | x in sh.kids[a][j + 1..] :: x in h
    ensures Subtree(h, sh, a) ==
              [a] + Blocks(h, sh, sh.kids[a][..j]) + Subtree(h, sh, sh.kids[a][j]) + Blocks(h, sh, sh.kids[a][j + 1..])
  {
    var k := sh.kids[a];
    var pre := k[..j];
    var post := k[j + 1..];
    var c := k[j];
    assert k == pre + [c] + post;
    SubtreeBlocks(h, sh, a);
    BlocksConcat(h, sh, pre, [c]);
    BlocksConcat(h, sh, pre + [c], post);
    BlocksOne(h, sh, c);
  }

  /** `sa'` is `sa` with the block `sp` at offset `off` replaced by `sp'`. */
  ghost predicate SplicedAt(sa: seq<NodeId>, sa': seq<NodeId>, sp: seq<NodeId>, sp': seq<NodeId>, off: nat) {
    off + |sp| <= |sa| && sa[off..off + |sp|] == sp && sa' == sa[..off] + sp' + sa[off + |sp|..]
  }

  /** Sequence arithmetic of one level of `SpliceAt`. */
  lemma SpliceSeq(sa: seq<NodeId>, sa': seq<NodeId>, a: NodeId, bp: seq<NodeId>, bq: seq<NodeId>,
                  sc: seq<NodeId>, sc': seq<NodeId>, sp: seq<NodeId>, sp': seq<NodeId>, offc: nat, off: nat)
    requires sa == [a] + bp + sc + bq && sa' == [a] + bp + sc' + bq && off == 1 + |bp| + offc
    requires SplicedAt(sc, sc', sp, sp', offc)
    ensures SplicedAt(sa, sa', sp, sp', off)
  {
    assert sa[..off] == [a] + bp + sc[..offc];
    assert sa[off..off + |sp|] == sc[offc..offc + |sp|];
    assert sa[off + |sp|..] == sc[offc + |sp|..] + bq;
  }

  lemma SpliceSelf(s: seq<NodeId>, t: seq<NodeId>)
    ensures SplicedAt(s, t, s, t, 0)
  {
    assert s[..0] == [] && s[|s|..] == [];
  }

  /** When child lists change only inside the subtree of `p`, the pre-order
      of the subtree of any ancestor `a` of `p` changes only in the block
      that is the pre-order of `p`'s subtree, at offset `off`. */
  lemma {:induction false} SpliceAt<T>(h: Heap<T>, sh: Shape, h': Heap<T>, sh': Shape, a: NodeId, p: NodeId) returns (off: nat)
    requires WF(h, sh) && WF(h', sh') && p in h && a in h && p in h' && Anc(h, sh, p, a)
    requires OutsideKept(h, sh, h', sh', p)
    ensures a in h'
    ensures SplicedAt(Subtree(h, sh, a), Subtree(h', sh', a), Subtree(h, sh, p), Subtree(h', sh', p), off)
    decreases sh.bound - sh.rank[a]
  {
    if a == p {
      off := 0;
      SpliceSelf(Subtree(h, sh, a), Subtree(h', sh', a));
    } else {
      var j, c := ChildToward(h, sh, a, p);
      var offc := SpliceAt(h, sh, h', sh', c, p);
      var k := sh.kids[a];
      assert forall x | x in k[..j] :: x in h by {
        assert ChildList(h, a, k);
      }
      assert forall x | x in k[j + 1..] :: x in h by {
        assert ChildList(h, a, k);
      }
      var bp, bq := Blocks(h, sh, k[..j]), Blocks(h, sh, k[j + 1..]);
      var sc, sc' := Subtree(h, sh, c), Subtree(h', sh', c);
      assert Subtree(h, sh, a) == [a] + bp + sc + bq by {
        SubtreeAround(h, sh, a, j);
      }
      assert Subtree(h', sh', a) == [a] + bp + sc' + bq by {
        AboveKept(h, sh, h', sh', a, p);
        SiblingsKept(h, sh, h', sh', a, j, p);
        SubtreeAround(h', sh', a, j);
        BlocksFrame(h, sh, h', sh', k[..j]);
        BlocksFrame(h, sh, h', sh', k[j + 1..]);
      }
      off := 1 + |bp| + offc;
      SpliceSeq(Subtree(h, sh, a), Subtree(h', sh', a), a, bp, bq, sc, sc', Subtree(h, sh, p), Subtree(h', sh', p), offc, off);
    }
  }

  /** A proper ancestor `a` of `p` has a child toward `p`. */
  lemma {:induction false} ChildToward<T>(h: Heap<T>, sh: Shape, a: NodeId, p: NodeId) returns (j: nat, c: NodeId)
    requires WF(h, sh) && p in h && a in h && Anc(h, sh, p, a) && a != p
    ensures j < |sh.kids[a]| && c == sh.kids[a][j] && c in h
    ensures p in Subtree(h, sh, c) && Anc(h, sh, p, c)
    ensures sh.rank[a] < sh.rank[c] <= sh.rank[p] < sh.bound
  {
    AncSubtree(h, sh, a, p);
    SubtreeSplit(h, sh, a);
    j := ForestMember(h, sh, a, |sh.kids[a]|, p);
    c := sh.kids[a][j];
    KidRank(h, sh, a, j);
    SubtreeAnc(h, sh, c, p);
    AncRank(h, sh, p, c);
  }

  /** A proper ancestor of `p` lies outside `p`'s subtree. */
  lemma {:induction false} AboveKept<T>(h: Heap<T>, sh: Shape, h': Heap<T>, sh': Shape, a: NodeId, p: NodeId)
    requires WF(h, sh) && p in h && a in h && Anc(h, sh, p, a) && a != p
    requires OutsideKept(h, sh, h', sh', p)
    ensures Kept(h', sh', sh, a)
  {
    AncRank(h, sh, p, a);
    forall y | y in Subtree(h, sh, p)
      ensures sh.rank[p] <= sh.rank[y]
    {
      SubtreeAnc(h, sh, p, y);
      AncRank(h, sh, y, p);
    }
  }

  /** The children of `a` other than the one at `j`, whose subtree holds
      `p`, keep their subtrees' pre-orders. */
  lemma {:induction false} SiblingsKept<T>(h: Heap<T>, sh: Shape, h': Heap<T>, sh': Shape, a: NodeId, j: nat, p: NodeId)
    requires WF(h, sh) && WF(h', sh') && a in h && p in h && j < |sh.kids[a]|
    requires sh.kids[a][j] in h && p in Subtree(h, sh, sh.kids[a][j])
    requires OutsideKept(h, sh, h', sh', p)
    ensures forall x | x in sh.kids[a][..j] + sh.kids[a][j + 1..] ::
              x in h && x in h' && Subtree(h', sh', x) == Subtree(h, sh, x)
  {
    forall x | x in sh.kids[a][..j] + sh.kids[a][j + 1..]
      ensures x in h && x in h' && Subtree(h', sh', x) == Subtree(h, sh, x)
    {
      var l := OtherIndex(sh.kids[a], j, x);
      SiblingKept(h, sh, h', sh', a, j, p, l);
    }
  }

  /** An element of a list with the one at `j` removed sits at another
      index. */
  lemma OtherIndex(k: seq<NodeId>, j: nat, x: NodeId) returns (l: nat)
    requires j < |k| && x in k[..j] + k[j + 1..]
    ensures l < |k| && l != j && k[l] == x
  {
    var u := k[..j] + k[j + 1..];
    var m :| 0 <= m < |u| && u[m] == x;
    if m < j {
      l := m;
    } else {
      l := m + 1;
    }
  }

  /** The child `l` of `a`, a sibling of the child `j` whose subtree holds
      `p`, keeps its subtree's pre-order. */
  lemma {:induction false} SiblingKept<T>(h: Heap<T>, sh: Shape, h': Heap<T>, sh': Shape, a: NodeId, j: nat, p: NodeId,
                                          l: nat)
    requires WF(h, sh) && WF(h', sh') && a in h && p in h && j < |sh.kids[a]| && l < |sh.kids[a]| && l != j
    requires sh.kids[a][j] in h && p in Subtree(h, sh, sh.kids[a][j])
    requires OutsideKept(h, sh, h', sh', p)
    ensures sh.kids[a][l] in h && sh.kids[a][l] in h'
    ensures Subtree(h', sh', sh.kids[a][l]) == Subtree(h, sh, sh.kids[a][l])
  {
    var k := sh.kids[a];
    var c := k[j];
    var x := k[l];
    assert ChildList(h, a, k);
    KidRank(h, sh, a, l);
    SubtreeAnc(h, sh, c, p);
    forall y | y in Subtree(h, sh, x)
      ensures Kept(h', sh', sh, y)
    {
      SubtreeAnc(h, sh, x, y);
      if y in Subtree(h, sh, p) {
        SubtreeAnc(h, sh, p, y);
        AncTrans(h, sh, y, p, c);
        AncSiblings(h, sh, y, x, c);
      }
    }
    SubtreeFrame(h, sh, h', sh', x);
  }
}
