/** What the mutations of `tree` do to the pre-order of the whole tree.
    Each lemma takes a rooted tree `(h0, sh0)` and the heap `(h3, sh3)` that
    one mutation leaves, described by its child lists, and shows that the
    result is again a rooted tree whose pre-order is the old one with the new
    node inserted, or with a block of nodes removed. */
module Effects {
  import opened TreeLinks
  import opened PreOrder
  import opened Linkage
  import opened Subtrees
  import opened Splice

  // ---- sequences

  lemma InsertMembers(s: seq<NodeId>, i: nat, x: NodeId)
    requires i <= |s|
    ensures x in InsertAt(s, i, x)
    ensures forall y | y in s :: y in InsertAt(s, i, x)
  {
    var r := InsertAt(s, i, x);
    forall y | y in s
      ensures y in r
    {
      var j :| 0 <= j < |s| && s[j] == y;
      if j < i {
        assert r[j] == y;
      } else {
        assert r[j + 1] == y;
      }
    }
  }

  lemma ReplacedSplit(s: seq<NodeId>, i: nat, x: NodeId)
    requires i < |s|
    ensures Replaced(s, i, x) == s[..i] + [x] + s[i + 1..]
  {
  }

  lemma InsertSplit(s: seq<NodeId>, i: nat, x: NodeId)
    requires i <= |s|
    ensures InsertAt(s, i, x) == s[..i] + [x] + s[i..]
    ensures s == s[..i] + s[i..]
  {
  }

  /** Inserting into a block inserts into the sequence around it. */
  lemma InsertBlock(o: seq<NodeId>, o': seq<NodeId>, s: seq<NodeId>, off: nat, idx: nat, x: NodeId, t: nat)
    requires idx <= |s| && SplicedAt(o, o', s, InsertAt(s, idx, x), off) && t == off + idx
    ensures t <= |o| && o' == InsertAt(o, t, x)
  {
    assert o[..off + idx] == o[..off] + s[..idx];
    assert o[off + idx..] == s[idx..] + o[off + |s|..];
  }

  /** Removing from a block removes from the sequence around it. */
  lemma RemoveBlock(o: seq<NodeId>, o': seq<NodeId>, s: seq<NodeId>, off: nat, idx: nat, len: nat)
    requires idx + len <= |s| && SplicedAt(o, o', s, s[..idx] + s[idx + len..], off)
    ensures off + idx + len <= |o| && o' == o[..off + idx] + o[off + idx + len..]
    ensures o[off + idx..off + idx + len] == s[idx..idx + len]
  {
    assert o[..off + idx] == o[..off] + s[..idx];
    assert o[off + idx + len..] == s[idx + len..] + o[off + |s|..];
    var cut, blk := o[off + idx..off + idx + len], s[idx..idx + len];
    forall t | 0 <= t < len
      ensures cut[t] == blk[t]
    {
      assert o[off..off + |s|][idx + t] == o[off + idx + t];
    }
  }

  /** `o'` is `o` without the `len` elements from index `k` on. */
  ghost predicate CutOut(o: seq<NodeId>, o': seq<NodeId>, k: nat, len: nat) {
    k + len <= |o| && o' == o[..k] + o[k + len..]
  }

  /** `s` occurs in `o` at index `k`. */
  ghost predicate BlockAt(o: seq<NodeId>, k: nat, s: seq<NodeId>) {
    k + |s| <= |o| && o[k..k + |s|] == s
  }

  /** A block that starts with the element at index `k` starts at `k`. */
  lemma BlockStart(o: seq<NodeId>, o': seq<NodeId>, s: seq<NodeId>, s': seq<NodeId>, off: nat, k: nat)
    requires Distinct(o) && SplicedAt(o, o', s, s', off) && |s| > 0 && k < |o| && o[k] == s[0]
    ensures off == k && BlockAt(o, k, s)
  {
    assert o[off..off + |s|][0] == o[off];
  }

  /** The index of an element of a sequence without repetitions. */
  lemma IndexUnique(o: seq<NodeId>, a: nat, b: nat)
    requires Distinct(o) && a < |o| && b < |o| && o[a] == o[b]
    ensures a == b
  {
  }

  // ---- trees

  /** Every node of a tree lies below its root. */
  lemma RootAnc<T>(h: Heap<T>, sh: Shape, r: NodeId, n: NodeId)
    requires Rooted(h, sh, To(r)) && n in h
    ensures n in Subtree(h, sh, r) && Anc(h, sh, n, r)
  {
    OrderComplete(h, sh, To(r));
    SubtreeAnc(h, sh, r, n);
  }

  /** The pre-order below the root of a tree visits each node once. */
  lemma RootComplete<T>(h: Heap<T>, sh: Shape, r: NodeId)
    requires Rooted(h, sh, To(r))
    ensures Distinct(Subtree(h, sh, r)) && forall n | n in h :: n in Subtree(h, sh, r)
  {
    SubtreeDistinct(h, sh, r);
    forall n | n in h
      ensures n in Subtree(h, sh, r)
    {
      RootAnc(h, sh, r, n);
    }
  }

  /** A well-formed heap whose nodes all lie below the parentless `r` is the
      tree rooted at `r`. */
  lemma RootedFromReach<T>(h: Heap<T>, sh: Shape, r: NodeId)
    requires WF(h, sh) && r in h && h[r].parent == Null
    requires forall n | n in h :: n in Subtree(h, sh, r)
    ensures Rooted(h, sh, To(r))
  {
    forall n | n in h
      ensures h[n].parent == Null <==> n == r
    {
      SubtreeAnc(h, sh, r, n);
    }
  }

  /** When no old node but `p` changes its child list, the children of `p`
      keep their subtrees, and everything outside `p`'s subtree is kept. */
  lemma ChildrenKept<T>(h0: Heap<T>, sh0: Shape, h3: Heap<T>, sh3: Shape, p: NodeId)
    requires WF(h0, sh0) && WF(h3, sh3) && p in h0
    requires forall x | x in h0 && x != p :: Kept(h3, sh3, sh0, x)
    ensures forall y | y in sh0.kids[p] :: y in h0 && y in h3 && Subtree(h3, sh3, y) == Subtree(h0, sh0, y)
    ensures OutsideKept(h0, sh0, h3, sh3, p)
  {
    var k := sh0.kids[p];
    forall y | y in k
      ensures y in h0 && y in h3 && Subtree(h3, sh3, y) == Subtree(h0, sh0, y)
    {
      var i :| 0 <= i < |k| && k[i] == y;
      KidRank(h0, sh0, p, i);
      forall x | x in Subtree(h0, sh0, y)
        ensures Kept(h3, sh3, sh0, x)
      {
        SubtreeAnc(h0, sh0, y, x);
        AncRank(h0, sh0, x, y);
      }
      SubtreeFrame(h0, sh0, h3, sh3, y);
    }
  }

  /** `Blocks` of a list of children of `p` that keep their subtrees. */
  lemma KidsBlocks<T>(h0: Heap<T>, sh0: Shape, h3: Heap<T>, sh3: Shape, p: NodeId, l: seq<NodeId>)
    requires WF(h0, sh0) && WF(h3, sh3) && p in h0
    requires forall y | y in sh0.kids[p] :: y in h0 && y in h3 && Subtree(h3, sh3, y) == Subtree(h0, sh0, y)
    requires forall y | y in l :: y in sh0.kids[p]
    ensures forall y | y in l :: y in h0 && y in h3
    ensures Blocks(h3, sh3, l) == Blocks(h0, sh0, l)
  {
    BlocksFrame(h0, sh0, h3, sh3, l);
  }

  /** In a tree, the block of `p` in the pre-order starts at the index of
      `p`, and a change inside `p`'s subtree changes only that block. */
  lemma SpliceIndex<T>(h0: Heap<T>, sh0: Shape, r: NodeId, h3: Heap<T>, sh3: Shape, p: NodeId, k: nat)
    requires Rooted(h0, sh0, To(r)) && WF(h3, sh3) && p in h0 && p in h3
    requires OutsideKept(h0, sh0, h3, sh3, p)
    requires k < |Subtree(h0, sh0, r)| && Subtree(h0, sh0, r)[k] == p
    ensures r in h3 && BlockAt(Subtree(h0, sh0, r), k, Subtree(h0, sh0, p))
    ensures SplicedAt(Subtree(h0, sh0, r), Subtree(h3, sh3, r), Subtree(h0, sh0, p), Subtree(h3, sh3, p), k)
  {
    RootAnc(h0, sh0, r, p);
    var off := SpliceAt(h0, sh0, h3, sh3, r, p);
    RootComplete(h0, sh0, r);
    BlockStart(Subtree(h0, sh0, r), Subtree(h3, sh3, r), Subtree(h0, sh0, p), Subtree(h3, sh3, p), off, k);
  }

  /** In a tree, the subtree of `p` is the block of the pre-order that
      starts at the index of `p`. */
  lemma BlockOf<T>(h: Heap<T>, sh: Shape, r: NodeId, p: NodeId, k: nat)
    requires Rooted(h, sh, To(r)) && p in h
    requires k < |Subtree(h, sh, r)| && Subtree(h, sh, r)[k] == p
    ensures BlockAt(Subtree(h, sh, r), k, Subtree(h, sh, p))
  {
    assert OutsideKept(h, sh, h, sh, p);
    SpliceIndex(h, sh, r, h, sh, p, k);
  }

  /** The new node `nw` enters the block of `p` at index `idx`: it enters the
      whole pre-order at the index of `p` plus `idx`, and the result is a
      tree again. */
  lemma InsertByBlock<T>(h0: Heap<T>, sh0: Shape, r: NodeId, h3: Heap<T>, sh3: Shape,
                         p: NodeId, idx: nat, nw: NodeId, k: nat, t: nat)
    requires Rooted(h0, sh0, To(r)) && WF(h3, sh3) && p in h0 && p in h3
    requires OutsideKept(h0, sh0, h3, sh3, p)
    requires nw !in h0 && h3.Keys == h0.Keys + {nw} && r in h3 && h3[r].parent == Null
    requires idx <= |Subtree(h0, sh0, p)| && Subtree(h3, sh3, p) == InsertAt(Subtree(h0, sh0, p), idx, nw)
    requires k < |Subtree(h0, sh0, r)| && Subtree(h0, sh0, r)[k] == p && t == k + idx
    ensures BlockAt(Subtree(h0, sh0, r), k, Subtree(h0, sh0, p))
    ensures Rooted(h3, sh3, To(r))
    ensures t <= |Subtree(h0, sh0, r)| && Subtree(h3, sh3, r) == InsertAt(Subtree(h0, sh0, r), t, nw)
  {
    var o := Subtree(h0, sh0, r);
    var o3 := Subtree(h3, sh3, r);
    var s := Subtree(h0, sh0, p);
    SpliceIndex(h0, sh0, r, h3, sh3, p, k);
    assert o3 == InsertAt(o, t, nw) by {
      InsertBlock(o, o3, s, k, idx, nw, t);
    }
    assert Rooted(h3, sh3, To(r)) by {
      RootComplete(h0, sh0, r);
      InsertMembers(o, t, nw);
      RootedFromReach(h3, sh3, r);
    }
  }

  /** The block of `p` loses `len` nodes from index `idx`, and so do the heap
      and the whole pre-order, from the index `t` of the first lost node; the
      result is a tree again. */
  lemma RemoveByBlock<T>(h0: Heap<T>, sh0: Shape, r: NodeId, h3: Heap<T>, sh3: Shape,
                         p: NodeId, idx: nat, len: nat, k: nat, t: nat)
    requires Rooted(h0, sh0, To(r)) && WF(h3, sh3) && p in h0 && p in h3
    requires OutsideKept(h0, sh0, h3, sh3, p)
    requires idx < idx + len <= |Subtree(h0, sh0, p)|
    requires Subtree(h3, sh3, p) == Subtree(h0, sh0, p)[..idx] + Subtree(h0, sh0, p)[idx + len..]
    requires h3.Keys == h0.Keys - Elems(Subtree(h0, sh0, p)[idx..idx + len])
    requires r in h3 && h3[r].parent == Null
    requires k < |Subtree(h0, sh0, r)| && Subtree(h0, sh0, r)[k] == p
    requires t < |Subtree(h0, sh0, r)| && Subtree(h0, sh0, r)[t] == Subtree(h0, sh0, p)[idx]
    ensures Rooted(h3, sh3, To(r))
    ensures CutOut(Subtree(h0, sh0, r), Subtree(h3, sh3, r), t, len)
  {
    var o := Subtree(h0, sh0, r);
    var o3 := Subtree(h3, sh3, r);
    var s := Subtree(h0, sh0, p);
    SpliceIndex(h0, sh0, r, h3, sh3, p, k);
    assert k + idx == t by {
      RootComplete(h0, sh0, r);
      BlockIndex(o, k, s, idx, t);
    }
    assert forall n | n in h0.Keys :: n in o by {
      RootComplete(h0, sh0, r);
    }
    CutMembers(o, o3, s, k, idx, len, t, h3.Keys, h0.Keys);
    RootedFromReach(h3, sh3, r);
  }

  /** Cutting a part of the block at `off` out of `o` cuts it out of `o`,
      and keeps the elements of `o` outside the part. */
  lemma CutMembers(o: seq<NodeId>, o': seq<NodeId>, s: seq<NodeId>, off: nat, idx: nat, len: nat, t: nat,
                   keys: set<NodeId>, all: set<NodeId>)
    requires idx + len <= |s| && SplicedAt(o, o', s, s[..idx] + s[idx + len..], off) && t == off + idx
    requires (forall n | n in all :: n in o) && keys == all - Elems(s[idx..idx + len])
    ensures CutOut(o, o', t, len) && forall n | n in keys :: n in o'
  {
    RemoveBlock(o, o', s, off, idx, len);
    RemoveMembers(o, off + idx, len, keys, all, s[idx..idx + len]);
  }

  /** What is left of `o` once the nodes at `[i, i + len)` are cut out. */
  lemma RemoveMembers(o: seq<NodeId>, i: nat, len: nat, keys: set<NodeId>, all: set<NodeId>, cut: seq<NodeId>)
    requires i + len <= |o| && o[i..i + len] == cut
    requires (forall n | n in all :: n in o) && keys == all - Elems(cut)
    ensures forall n | n in keys :: n in o[..i] + o[i + len..]
  {
    var o' := o[..i] + o[i + len..];
    forall t | i <= t < i + len
      ensures o[t] in o[i..i + len]
    {
      assert o[i..i + len][t - i] == o[t];
    }
    forall n | n in keys
      ensures n in o'
    {
      var t :| 0 <= t < |o| && o[t] == n;
      if t < i {
        assert o'[t] == n;
      } else {
        assert o'[t - len] == n;
      }
    }
  }

  lemma InsertConcat(u: seq<NodeId>, v: seq<NodeId>, x: NodeId)
    ensures InsertAt(u + v, |u|, x) == u + [x] + v
  {
    assert (u + v)[..|u|] == u && (u + v)[|u|..] == v;
  }

  // ---- one mutation, seen from the parent whose child list changes

  /** `p` gains the new leaf `nw` as its last child: `nw` enters the end of
      the block of `p`. */
  lemma AppendBlock<T>(h0: Heap<T>, sh0: Shape, h3: Heap<T>, sh3: Shape, p: NodeId, nw: NodeId)
    requires WF(h0, sh0) && WF(h3, sh3) && p in h0 && p in h3 && nw in h3
    requires forall x | x in h0 && x != p :: Kept(h3, sh3, sh0, x)
    requires sh3.kids[p] == sh0.kids[p] + [nw] && sh3.kids[nw] == []
    ensures OutsideKept(h0, sh0, h3, sh3, p)
    ensures Subtree(h3, sh3, p) == InsertAt(Subtree(h0, sh0, p), |Subtree(h0, sh0, p)|, nw)
  {
    var K := sh0.kids[p];
    ChildrenKept(h0, sh0, h3, sh3, p);
    SubtreeBlocks(h0, sh0, p);
    SubtreeBlocks(h3, sh3, p);
    KidsBlocks(h0, sh0, h3, sh3, p, K);
    BlocksConcat(h3, sh3, K, [nw]);
    BlocksOne(h3, sh3, nw);
    SubtreeBlocks(h3, sh3, nw);
    InsertConcat(Subtree(h0, sh0, p), [], nw);
  }

  /** `p` gains the new leaf `nw` as its first child: `nw` enters the block
      of `p` right after `p`. */
  lemma PrependBlock<T>(h0: Heap<T>, sh0: Shape, h3: Heap<T>, sh3: Shape, p: NodeId, nw: NodeId)
    requires WF(h0, sh0) && WF(h3, sh3) && p in h0 && p in h3 && nw in h3
    requires forall x | x in h0 && x != p :: Kept(h3, sh3, sh0, x)
    requires sh3.kids[p] == [nw] + sh0.kids[p] && sh3.kids[nw] == []
    ensures OutsideKept(h0, sh0, h3, sh3, p)
    ensures 1 <= |Subtree(h0, sh0, p)|
    ensures Subtree(h3, sh3, p) == InsertAt(Subtree(h0, sh0, p), 1, nw)
  {
    var K := sh0.kids[p];
    ChildrenKept(h0, sh0, h3, sh3, p);
    SubtreeBlocks(h0, sh0, p);
    SubtreeBlocks(h3, sh3, p);
    KidsBlocks(h0, sh0, h3, sh3, p, K);
    BlocksConcat(h3, sh3, [nw], K);
    BlocksOne(h3, sh3, nw);
    SubtreeBlocks(h3, sh3, nw);
    InsertConcat([p], Blocks(h0, sh0, K), nw);
  }

  /** The new node `nw` takes the place of the child `x` at index `i` of `q`
      and gets `x` as its only child: `nw` enters the block of `q` right
      before `x`. */
  lemma VertBlock<T>(h0: Heap<T>, sh0: Shape, h3: Heap<T>, sh3: Shape, q: NodeId, i: nat, nw: NodeId)
      returns (idx: nat)
    requires WF(h0, sh0) && WF(h3, sh3) && q in h0 && q in h3 && nw in h3
    requires i < |sh0.kids[q]|
    requires forall x | x in h0 && x != q :: Kept(h3, sh3, sh0, x)
    requires sh3.kids[q] == Replaced(sh0.kids[q], i, nw) && sh3.kids[nw] == [sh0.kids[q][i]]
    ensures OutsideKept(h0, sh0, h3, sh3, q)
    ensures idx < |Subtree(h0, sh0, q)| && Subtree(h0, sh0, q)[idx] == sh0.kids[q][i]
    ensures Subtree(h3, sh3, q) == InsertAt(Subtree(h0, sh0, q), idx, nw)
  {
    var K := sh0.kids[q];
    ChildrenKept(h0, sh0, h3, sh3, q);
    assert K[i] in K;
    var pre, post := AroundKid(h0, sh0, h3, sh3, q, i);
    VertShape(h3, sh3, q, i, K, nw);
    idx := |pre|;
    InsertConcat(pre, post, nw);
  }

  /** The child lists of `vert` insertion, seen in the new heap alone. */
  lemma VertShape<T>(h: Heap<T>, sh: Shape, q: NodeId, i: nat, K: seq<NodeId>, nw: NodeId)
    requires WF(h, sh) && q in h && nw in h && i < |K|
    requires sh.kids[q] == Replaced(K, i, nw) && sh.kids[nw] == [K[i]]
    ensures K[i] in h && (forall y | y in K[..i] :: y in h) && (forall y | y in K[i + 1..] :: y in h)
    ensures Subtree(h, sh, q) ==
              ([q] + Blocks(h, sh, K[..i])) + [nw] + (Subtree(h, sh, K[i]) + Blocks(h, sh, K[i + 1..]))
  {
    var K3 := sh.kids[q];
    assert K3[..i] == K[..i] && K3[i] == nw && K3[i + 1..] == K[i + 1..];
    SubtreeAround(h, sh, q, i);
    assert Subtree(h, sh, nw) == [nw] + Subtree(h, sh, K[i]) by {
      SubtreeBlocks(h, sh, nw);
      BlocksOne(h, sh, K[i]);
    }
  }

  /** The child lists of `hor` insertion, seen in the new heap alone. */
  lemma HorShape<T>(h: Heap<T>, sh: Shape, q: NodeId, i: nat, K: seq<NodeId>, nw: NodeId)
    requires WF(h, sh) && q in h && nw in h && i < |K|
    requires sh.kids[q] == InsertAt(K, i, nw) && sh.kids[nw] == []
    ensures K[i] in h && (forall y | y in K[..i] :: y in h) && (forall y | y in K[i + 1..] :: y in h)
    ensures Subtree(h, sh, q) ==
              ([q] + Blocks(h, sh, K[..i])) + [nw] + (Subtree(h, sh, K[i]) + Blocks(h, sh, K[i + 1..]))
  {
    var K3 := sh.kids[q];
    assert K3[..i] == K[..i] && K3[i] == nw && K3[i + 1..] == K[i..];
    SubtreeAround(h, sh, q, i);
    assert Subtree(h, sh, nw) == [nw] by {
      SubtreeBlocks(h, sh, nw);
    }
    assert Blocks(h, sh, K[i..]) == Subtree(h, sh, K[i]) + Blocks(h, sh, K[i + 1..]) by {
      assert forall y | y in K :: y in h by {
        assert K == K[..i] + K[i..];
      }
      BlocksFrom(h, sh, K, i);
    }
  }

  /** The pre-order of `q` around its child at index `i`, whose siblings keep
      their subtrees: `pre` ends before the child's block and `post` is that
      block and the rest. */
  lemma AroundKid<T>(h0: Heap<T>, sh0: Shape, h3: Heap<T>, sh3: Shape, q: NodeId, i: nat)
      returns (pre: seq<NodeId>, post: seq<NodeId>)
    requires WF(h0, sh0) && WF(h3, sh3) && q in h0 && i < |sh0.kids[q]|
    requires forall y | y in sh0.kids[q] :: y in h0 && y in h3 && Subtree(h3, sh3, y) == Subtree(h0, sh0, y)
    ensures sh0.kids[q][i] in h0
    ensures forall y | y in sh0.kids[q][..i] :: y in h3
    ensures forall y | y in sh0.kids[q][i + 1..] :: y in h3
    ensures pre == [q] + Blocks(h3, sh3, sh0.kids[q][..i])
    ensures post == Subtree(h0, sh0, sh0.kids[q][i]) + Blocks(h3, sh3, sh0.kids[q][i + 1..])
    ensures Subtree(h0, sh0, q) == pre + post
  {
    var K := sh0.kids[q];
    SubtreeAround(h0, sh0, q, i);
    KidsBlocks(h0, sh0, h3, sh3, q, K[..i]);
    KidsBlocks(h0, sh0, h3, sh3, q, K[i + 1..]);
    pre := [q] + Blocks(h3, sh3, K[..i]);
    post := Subtree(h0, sh0, K[i]) + Blocks(h3, sh3, K[i + 1..]);
  }

  /** The blocks of the children from index `i` on: the block of child `i`,
      then the rest. */
  lemma BlocksFrom<T>(h: Heap<T>, sh: Shape, l: seq<NodeId>, i: nat)
    requires WF(h, sh) && i < |l| && forall y | y in l :: y in h
    ensures forall y | y in l[i..] :: y in h
    ensures forall y | y in l[i + 1..] :: y in h
    ensures Blocks(h, sh, l[i..]) == Subtree(h, sh, l[i]) + Blocks(h, sh, l[i + 1..])
  {
    assert l[i..] == [l[i]] + l[i + 1..];
    BlocksConcat(h, sh, [l[i]], l[i + 1..]);
    BlocksOne(h, sh, l[i]);
  }

  /** The new leaf `nw` joins the children of `q` just before the child at
      index `i`: it enters the block of `q` right before that child. */
  lemma HorBlock<T>(h0: Heap<T>, sh0: Shape, h3: Heap<T>, sh3: Shape, q: NodeId, i: nat, nw: NodeId)
      returns (idx: nat)
    requires WF(h0, sh0) && WF(h3, sh3) && q in h0 && q in h3 && nw in h3
    requires i < |sh0.kids[q]|
    requires forall x | x in h0 && x != q :: Kept(h3, sh3, sh0, x)
    requires sh3.kids[q] == InsertAt(sh0.kids[q], i, nw) && sh3.kids[nw] == []
    ensures OutsideKept(h0, sh0, h3, sh3, q)
    ensures idx < |Subtree(h0, sh0, q)| && Subtree(h0, sh0, q)[idx] == sh0.kids[q][i]
    ensures Subtree(h3, sh3, q) == InsertAt(Subtree(h0, sh0, q), idx, nw)
  {
    var K := sh0.kids[q];
    ChildrenKept(h0, sh0, h3, sh3, q);
    assert K[i] in K;
    var pre, post := AroundKid(h0, sh0, h3, sh3, q, i);
    HorShape(h3, sh3, q, i, K, nw);
    idx := |pre|;
    InsertConcat(pre, post, nw);
  }

  // ---- the whole tree

  /** The new node enters the block of `q` right before the node at index
      `k` of the whole pre-order: it enters the pre-order at index `k`. */
  lemma InsertBefore<T>(h0: Heap<T>, sh0: Shape, r: NodeId, h3: Heap<T>, sh3: Shape,
                        q: NodeId, idx: nat, nw: NodeId, k: nat)
    requires Rooted(h0, sh0, To(r)) && WF(h3, sh3) && q in h0 && q in h3
    requires OutsideKept(h0, sh0, h3, sh3, q)
    requires nw !in h0 && h3.Keys == h0.Keys + {nw} && r in h3 && h3[r].parent == Null
    requires idx < |Subtree(h0, sh0, q)| && Subtree(h3, sh3, q) == InsertAt(Subtree(h0, sh0, q), idx, nw)
    requires k < |Subtree(h0, sh0, r)| && Subtree(h0, sh0, r)[k] == Subtree(h0, sh0, q)[idx]
    ensures Rooted(h3, sh3, To(r))
    ensures Subtree(h3, sh3, r) == InsertAt(Subtree(h0, sh0, r), k, nw)
  {
    RootAnc(h0, sh0, r, q);
    var o := Subtree(h0, sh0, r);
    var kq :| 0 <= kq < |o| && o[kq] == q;
    assert BlockAt(o, kq, Subtree(h0, sh0, q)) by {
      BlockOf(h0, sh0, r, q, kq);
    }
    assert kq + idx == k by {
      RootComplete(h0, sh0, r);
      BlockIndex(o, kq, Subtree(h0, sh0, q), idx, k);
    }
    InsertByBlock(h0, sh0, r, h3, sh3, q, idx, nw, kq, k);
  }

  /** An element of a block sits at the block's index plus its index in it. */
  lemma BlockIndex(o: seq<NodeId>, kq: nat, s: seq<NodeId>, idx: nat, k: nat)
    requires Distinct(o) && BlockAt(o, kq, s) && idx < |s| && k < |o| && o[k] == s[idx]
    ensures kq + idx == k
  {
    assert o[kq..kq + |s|][idx] == o[kq + idx];
    IndexUnique(o, kq + idx, k);
  }

  /** A block that ends with the last element of `o` ends where `o` ends. */
  lemma EndIndex(o: seq<NodeId>, k: nat, s: seq<NodeId>)
    requires Distinct(o) && BlockAt(o, k, s) && |s| > 0 && s[|s| - 1] == o[|o| - 1]
    ensures k + |s| == |o|
  {
    assert o[k..k + |s|][|s| - 1] == o[k + |s| - 1];
    IndexUnique(o, k + |s| - 1, |o| - 1);
  }

  /** The new node `nw` becomes the last child of `p`, which sits at index
      `k` of the pre-order: `nw` enters the pre-order right after the
      subtree of `p`, at index `t`. */
  lemma AppendUnder<T>(h0: Heap<T>, sh0: Shape, r: NodeId, h3: Heap<T>, sh3: Shape, p: NodeId, nw: NodeId,
                       a: seq<NodeId>, k: nat, t: nat)
    requires Rooted(h0, sh0, To(r)) && WF(h3, sh3) && p in h0 && nw in h3
    requires nw !in h0 && h3.Keys == h0.Keys + {nw} && h3[r].parent == Null
    requires sh3.kids == sh0.kids[nw := []][p := a] && a == sh0.kids[p] + [nw]
    requires k < |Subtree(h0, sh0, r)| && Subtree(h0, sh0, r)[k] == p && t == k + |Subtree(h0, sh0, p)|
    ensures BlockAt(Subtree(h0, sh0, r), k, Subtree(h0, sh0, p))
    ensures Rooted(h3, sh3, To(r))
    ensures t <= |Subtree(h0, sh0, r)| && Subtree(h3, sh3, r) == InsertAt(Subtree(h0, sh0, r), t, nw)
  {
    assert sh3.kids == sh0.kids[nw := []][p := a][nw := sh3.kids[nw]];
    KidsKept(h0, sh0, h3, sh3, p, nw, a, sh3.kids[nw], []);
    AppendBlock(h0, sh0, h3, sh3, p, nw);
    InsertByBlock(h0, sh0, r, h3, sh3, p, |Subtree(h0, sh0, p)|, nw, k, t);
  }

  /** The new node `nw` becomes the first child of `p`, which sits at index
      `k` of the pre-order: `nw` enters the pre-order right after `p`. */
  lemma PrependUnder<T>(h0: Heap<T>, sh0: Shape, r: NodeId, h3: Heap<T>, sh3: Shape, p: NodeId, nw: NodeId,
                        a: seq<NodeId>, k: nat)
    requires Rooted(h0, sh0, To(r)) && WF(h3, sh3) && p in h0 && nw in h3
    requires nw !in h0 && h3.Keys == h0.Keys + {nw} && h3[r].parent == Null
    requires sh3.kids == sh0.kids[nw := []][p := a] && a == [nw] + sh0.kids[p]
    requires k < |Subtree(h0, sh0, r)| && Subtree(h0, sh0, r)[k] == p
    ensures Rooted(h3, sh3, To(r))
    ensures Subtree(h3, sh3, r) == InsertAt(Subtree(h0, sh0, r), k + 1, nw)
  {
    assert sh3.kids == sh0.kids[nw := []][p := a][nw := sh3.kids[nw]];
    KidsKept(h0, sh0, h3, sh3, p, nw, a, sh3.kids[nw], []);
    PrependBlock(h0, sh0, h3, sh3, p, nw);
    InsertByBlock(h0, sh0, r, h3, sh3, p, 1, nw, k, k + 1);
  }

  /** A node `p` whose chain of last children ends at the last node of the
      pre-order: its block is the tail of the pre-order. */
  lemma EndBlock<T>(h0: Heap<T>, sh0: Shape, r: NodeId, p: NodeId) returns (kp: nat)
    requires Rooted(h0, sh0, To(r)) && p in h0 && DeepLast(h0, sh0, p) == DeepLast(h0, sh0, r)
    ensures kp < |Subtree(h0, sh0, r)| && Subtree(h0, sh0, r)[kp] == p
    ensures kp + |Subtree(h0, sh0, p)| == |Subtree(h0, sh0, r)|
  {
    RootAnc(h0, sh0, r, p);
    var o := Subtree(h0, sh0, r);
    var s := Subtree(h0, sh0, p);
    kp :| 0 <= kp < |o| && o[kp] == p;
    assert BlockAt(o, kp, s) by {
      BlockOf(h0, sh0, r, p, kp);
    }
    RootComplete(h0, sh0, r);
    PredInSubtree(h0, sh0, p);
    PredInSubtree(h0, sh0, r);
    EndIndex(o, kp, s);
  }

  /** The child lists of every node but `q` and the new node `nw` are kept. */
  lemma KidsKept<T>(h0: Heap<T>, sh0: Shape, h3: Heap<T>, sh3: Shape, q: NodeId, nw: NodeId,
                    a: seq<NodeId>, b: seq<NodeId>, c: seq<NodeId>)
    requires WF(h0, sh0) && WF(h3, sh3) && nw !in h0 && h3.Keys == h0.Keys + {nw}
    requires sh3.kids == sh0.kids[nw := c][q := a][nw := b]
    ensures forall y | y in h0 && y != q :: Kept(h3, sh3, sh0, y)
  {
  }

  /** `nw` takes the place of the child `x` of `q` and `x` becomes its only
      child: `nw` enters the pre-order right before `x`. */
  lemma AdoptFrom<T>(h0: Heap<T>, sh0: Shape, r: NodeId, h3: Heap<T>, sh3: Shape, q: NodeId, i: nat, nw: NodeId,
                     b: seq<NodeId>, k: nat)
    requires Rooted(h0, sh0, To(r)) && WF(h3, sh3) && q in h0 && i < |sh0.kids[q]|
    requires nw !in h0 && h3.Keys == h0.Keys + {nw} && h3[r].parent == Null
    requires sh3.kids == sh0.kids[nw := []][q := Replaced(sh0.kids[q], i, nw)][nw := b] && b == [sh0.kids[q][i]]
    requires k < |Subtree(h0, sh0, r)| && Subtree(h0, sh0, r)[k] == sh0.kids[q][i]
    ensures Rooted(h3, sh3, To(r))
    ensures Subtree(h3, sh3, r) == InsertAt(Subtree(h0, sh0, r), k, nw)
  {
    KidsKept(h0, sh0, h3, sh3, q, nw, Replaced(sh0.kids[q], i, nw), b, []);
    var idx := VertBlock(h0, sh0, h3, sh3, q, i, nw);
    InsertBefore(h0, sh0, r, h3, sh3, q, idx, nw, k);
  }

  /** `nw` joins the children of `q` right before its child at index `i`:
      it enters the pre-order right before that child. */
  lemma SiblingFrom<T>(h0: Heap<T>, sh0: Shape, r: NodeId, h3: Heap<T>, sh3: Shape, q: NodeId, i: nat, nw: NodeId, k: nat)
    requires Rooted(h0, sh0, To(r)) && WF(h3, sh3) && q in h0 && i < |sh0.kids[q]|
    requires nw !in h0 && h3.Keys == h0.Keys + {nw} && h3[r].parent == Null
    requires sh3.kids == sh0.kids[nw := []][q := InsertAt(sh0.kids[q], i, nw)]
    requires k < |Subtree(h0, sh0, r)| && Subtree(h0, sh0, r)[k] == sh0.kids[q][i]
    ensures Rooted(h3, sh3, To(r))
    ensures Subtree(h3, sh3, r) == InsertAt(Subtree(h0, sh0, r), k, nw)
  {
    var a := InsertAt(sh0.kids[q], i, nw);
    assert sh3.kids == sh0.kids[nw := []][q := a][nw := sh3.kids[nw]];
    KidsKept(h0, sh0, h3, sh3, q, nw, a, sh3.kids[nw], []);
    var idx := HorBlock(h0, sh0, h3, sh3, q, i, nw);
    InsertBefore(h0, sh0, r, h3, sh3, q, idx, nw, k);
  }

  /** The parent `q` of `x` is not in the subtree of `x`; so a change of
      child lists at `q` and outside the tree keeps that subtree. */
  lemma SubtreeKept<T>(h0: Heap<T>, sh0: Shape, h1: Heap<T>, sh1: Shape, x: NodeId, q: NodeId)
    requires WF(h0, sh0) && WF(h1, sh1) && x in h0 && h0[x].parent == To(q)
    requires forall y | y in h0 && y != q :: Kept(h1, sh1, sh0, y)
    ensures q !in Subtree(h0, sh0, x)
    ensures x in h1 && Subtree(h1, sh1, x) == Subtree(h0, sh0, x)
  {
    assert ParentLink(h0, sh0, x);
    assert q !in Subtree(h0, sh0, x) by {
      if q in Subtree(h0, sh0, x) {
        SubtreeAnc(h0, sh0, x, q);
        AncRank(h0, sh0, q, x);
      }
    }
    forall y | y in Subtree(h0, sh0, x)
      ensures Kept(h1, sh1, sh0, y)
    {
      SubtreeAnc(h0, sh0, x, y);
    }
    SubtreeFrame(h0, sh0, h1, sh1, x);
  }

  /** `nw` becomes the parent of `x` in the place of `x` under `q`: no chain
      of parents from `nw` reaches `x`, since the subtree of `x` is kept. */
  lemma NotBelowMoved<T>(h0: Heap<T>, sh0: Shape, h2: Heap<T>, sh2: Shape, x: NodeId, q: NodeId, nw: NodeId,
                          a: seq<NodeId>)
    requires WF(h0, sh0) && WF(h2, sh2) && x in h0 && h0[x].parent == To(q) && nw !in h0
    requires h2.Keys == h0.Keys + {nw} && sh2.kids == sh0.kids[nw := []][q := a]
    ensures x in h2 && !Anc(h2, sh2, nw, x)
  {
    assert sh2.kids == sh0.kids[nw := []][q := a][nw := sh2.kids[nw]];
    KidsKept(h0, sh0, h2, sh2, q, nw, a, sh2.kids[nw], []);
    SubtreeKept(h0, sh0, h2, sh2, x, q);
    if Anc(h2, sh2, nw, x) {
      AncSubtree(h2, sh2, x, nw);
      SubtreeAnc(h0, sh0, x, nw);
    }
  }

  /** The root `r` goes below the new root `nw`, every child list of the
      old tree kept. */
  lemma VertRoot<T>(h0: Heap<T>, sh0: Shape, r: NodeId, h3: Heap<T>, sh3: Shape, nw: NodeId)
    requires Rooted(h0, sh0, To(r)) && WF(h3, sh3)
    requires nw !in h0 && h3.Keys == h0.Keys + {nw} && h3[nw].parent == Null
    requires forall x | x in h0 :: Kept(h3, sh3, sh0, x)
    requires sh3.kids[nw] == [r]
    ensures Rooted(h3, sh3, To(nw))
    ensures Subtree(h3, sh3, nw) == InsertAt(Subtree(h0, sh0, r), 0, nw)
  {
    var o := Subtree(h0, sh0, r);
    assert Subtree(h3, sh3, r) == o by {
      SubtreeFrame(h0, sh0, h3, sh3, r);
    }
    assert Subtree(h3, sh3, nw) == [nw] + o by {
      SubtreeBlocks(h3, sh3, nw);
      BlocksOne(h3, sh3, r);
    }
    assert [] + o == o;
    InsertConcat([], o, nw);
    assert Rooted(h3, sh3, To(nw)) by {
      RootComplete(h0, sh0, r);
      InsertMembers(o, 0, nw);
      RootedFromReach(h3, sh3, nw);
    }
  }

  /** A single node with no links is the tree of one node. */
  lemma SingleRoot<T>(h: Heap<T>, sh: Shape, nw: NodeId)
    requires WF(h, sh) && h.Keys == {nw} && h[nw].parent == Null && sh.kids[nw] == []
    ensures Rooted(h, sh, To(nw)) && Subtree(h, sh, nw) == [nw]
  {
    SubtreeBlocks(h, sh, nw);
    RootedFromReach(h, sh, nw);
  }

  // ---- the last node

  /** `find_last_node` follows `last_child` links only, so it walks the same
      way in a heap that keeps every node's `last_child`. */
  lemma {:induction false} DeepLastFrame<T>(h0: Heap<T>, sh0: Shape, h1: Heap<T>, sh1: Shape, n: NodeId)
    requires WF(h0, sh0) && WF(h1, sh1) && n in h0
    requires forall x | x in h0 :: x in h1 && h1[x].lastChild == h0[x].lastChild
    ensures DeepLast(h1, sh1, n) == DeepLast(h0, sh0, n)
    decreases sh0.bound - sh0.rank[n]
  {
    assert ChildList(h0, n, sh0.kids[n]);
    if h0[n].lastChild.To? {
      KidRank(h0, sh0, n, |sh0.kids[n]| - 1);
      DeepLastFrame(h0, sh0, h1, sh1, h0[n].lastChild.id);
    }
  }

  /** The end of the chain of last children is a leaf. */
  lemma {:induction false} DeepLastLeaf<T>(h: Heap<T>, sh: Shape, n: NodeId)
    requires WF(h, sh) && n in h
    ensures DeepLast(h, sh, n) in h && sh.kids[DeepLast(h, sh, n)] == []
    ensures Subtree(h, sh, DeepLast(h, sh, n)) == [DeepLast(h, sh, n)]
    ensures DeepLast(h, sh, DeepLast(h, sh, n)) == DeepLast(h, sh, n)
    decreases sh.bound - sh.rank[n]
  {
    assert ChildList(h, n, sh.kids[n]);
    if h[n].lastChild.To? {
      KidRank(h, sh, n, |sh.kids[n]| - 1);
      DeepLastLeaf(h, sh, h[n].lastChild.id);
    } else {
      SubtreeBlocks(h, sh, n);
    }
  }

  /** When `n` has children, the end of its chain of last children is the
      last child of its parent `pa`, whose chain ends there too. */
  lemma {:induction false} DeepLastParent<T>(h: Heap<T>, sh: Shape, n: NodeId) returns (pa: NodeId)
    requires WF(h, sh) && n in h && h[n].lastChild.To?
    ensures DeepLast(h, sh, n) in h && pa in h && h[DeepLast(h, sh, n)].parent == To(pa)
    ensures DeepLast(h, sh, pa) == DeepLast(h, sh, n)
    decreases sh.bound - sh.rank[n]
  {
    assert ChildList(h, n, sh.kids[n]);
    var K := sh.kids[n];
    var c := h[n].lastChild.id;
    KidRank(h, sh, n, |K| - 1);
    if h[c].lastChild.To? {
      pa := DeepLastParent(h, sh, c);
    } else {
      pa := n;
      assert h[K[|K| - 1]].parent == To(n);
    }
  }

  // ---- removing a subtree

  /** The subtrees of two different children of `q` share no node, and none
      of them holds `q`. */
  lemma SiblingsApart<T>(h: Heap<T>, sh: Shape, q: NodeId, i: nat)
    requires WF(h, sh) && q in h && i < |sh.kids[q]|
    ensures sh.kids[q][i] in h
    ensures forall l | 0 <= l < |sh.kids[q]| && l != i ::
              sh.kids[q][l] in h &&
              forall y | y in Subtree(h, sh, sh.kids[q][l]) :: y !in Subtree(h, sh, sh.kids[q][i]) && y != q
  {
    var K := sh.kids[q];
    var x := K[i];
    assert ChildList(h, q, K);
    forall l, y | 0 <= l < |K| && y in Subtree(h, sh, K[l]) && y in Subtree(h, sh, x)
      ensures K[l] == x
    {
      SubtreeAnc(h, sh, K[l], y);
      SubtreeAnc(h, sh, x, y);
      AncSiblings(h, sh, y, K[l], x);
    }
    forall l, y | 0 <= l < |K| && y in Subtree(h, sh, K[l])
      ensures y != q
    {
      KidRank(h, sh, q, l);
      SubtreeAnc(h, sh, K[l], y);
      AncRank(h, sh, y, K[l]);
    }
  }

  /** Cutting the middle part out of a concatenation of three. */
  lemma CutMiddle(pre: seq<NodeId>, mid: seq<NodeId>, post: seq<NodeId>)
    ensures |pre| + |mid| <= |pre + mid + post|
    ensures (pre + mid + post)[|pre|..|pre| + |mid|] == mid
    ensures (pre + mid + post)[..|pre|] + (pre + mid + post)[|pre| + |mid|..] == pre + post
  {
    var s := pre + mid + post;
    assert s[..|pre|] == pre;
    assert s[|pre| + |mid|..] == post;
  }

  /** The children of `q` but the one at index `i` keep their subtrees when
      every node outside that one's subtree keeps its child list. */
  lemma SiblingsFrame<T>(h0: Heap<T>, sh0: Shape, h3: Heap<T>, sh3: Shape, q: NodeId, i: nat)
    requires WF(h0, sh0) && WF(h3, sh3) && q in h0 && i < |sh0.kids[q]| && sh0.kids[q][i] in h0
    requires forall y | y in h0 && y != q && y !in Subtree(h0, sh0, sh0.kids[q][i]) :: Kept(h3, sh3, sh0, y)
    ensures forall y | y in sh0.kids[q][..i] :: y in h0 && y in h3 && Subtree(h3, sh3, y) == Subtree(h0, sh0, y)
    ensures forall y | y in sh0.kids[q][i + 1..] :: y in h0 && y in h3 && Subtree(h3, sh3, y) == Subtree(h0, sh0, y)
  {
    var K := sh0.kids[q];
    SiblingsApart(h0, sh0, q, i);
    forall y | y in K[..i] + K[i + 1..]
      ensures y in h0 && y in h3 && Subtree(h3, sh3, y) == Subtree(h0, sh0, y)
    {
      var l :| 0 <= l < |K| && l != i && K[l] == y;
      SubtreeFrame(h0, sh0, h3, sh3, y);
    }
  }

  /** The child lists after `unlink_child`, seen in the new heap alone. */
  lemma EraseShape<T>(h: Heap<T>, sh: Shape, q: NodeId, i: nat, K: seq<NodeId>)
    requires WF(h, sh) && q in h && i < |K| && sh.kids[q] == Without(K, i)
    ensures (forall y | y in K[..i] :: y in h) && (forall y | y in K[i + 1..] :: y in h)
    ensures Subtree(h, sh, q) == [q] + Blocks(h, sh, K[..i]) + Blocks(h, sh, K[i + 1..])
  {
    assert Without(K, i) == K[..i] + K[i + 1..];
    assert ChildList(h, q, sh.kids[q]);
    SubtreeBlocks(h, sh, q);
    BlocksConcat(h, sh, K[..i], K[i + 1..]);
  }

  /** The child `x` at index `i` of `q` is cut out with its subtree: its block
      leaves the block of `q`. */
  lemma EraseBlock<T>(h0: Heap<T>, sh0: Shape, h3: Heap<T>, sh3: Shape, q: NodeId, i: nat) returns (idx: nat, len: nat)
    requires WF(h0, sh0) && WF(h3, sh3) && q in h0 && q in h3 && i < |sh0.kids[q]| && sh0.kids[q][i] in h0
    requires forall y | y in h0 && y != q && y !in Subtree(h0, sh0, sh0.kids[q][i]) :: Kept(h3, sh3, sh0, y)
    requires sh3.kids[q] == Without(sh0.kids[q], i)
    ensures OutsideKept(h0, sh0, h3, sh3, q)
    ensures len == |Subtree(h0, sh0, sh0.kids[q][i])| && idx < idx + len <= |Subtree(h0, sh0, q)|
    ensures Subtree(h0, sh0, q)[idx..idx + len] == Subtree(h0, sh0, sh0.kids[q][i])
    ensures Subtree(h0, sh0, q)[idx] == sh0.kids[q][i]
    ensures Subtree(h3, sh3, q) == Subtree(h0, sh0, q)[..idx] + Subtree(h0, sh0, q)[idx + len..]
  {
    var K := sh0.kids[q];
    var x := K[i];
    assert OutsideKept(h0, sh0, h3, sh3, q) by {
      KidInSubtree(h0, sh0, q, q, i);
      SubtreeWithin(h0, sh0, q, x);
    }
    SiblingsFrame(h0, sh0, h3, sh3, q, i);
    var pre, post := [q] + Blocks(h0, sh0, K[..i]), Blocks(h0, sh0, K[i + 1..]);
    assert Subtree(h0, sh0, q) == pre + Subtree(h0, sh0, x) + post by {
      SubtreeAround(h0, sh0, q, i);
    }
    assert Subtree(h3, sh3, q) == pre + post by {
      EraseShape(h3, sh3, q, i, K);
      BlocksFrame(h0, sh0, h3, sh3, K[..i]);
      BlocksFrame(h0, sh0, h3, sh3, K[i + 1..]);
    }
    idx, len := |pre|, |Subtree(h0, sh0, x)|;
    CutMiddle(pre, Subtree(h0, sh0, x), post);
    SliceHead(Subtree(h0, sh0, q), idx, Subtree(h0, sh0, x));
  }

  /** A node with a parent does not have the root in its subtree. */
  lemma RootOutside<T>(h: Heap<T>, sh: Shape, r: NodeId, x: NodeId)
    requires Rooted(h, sh, To(r)) && x in h && h[x].parent.To?
    ensures r !in Subtree(h, sh, x)
  {
    forall y | y in Subtree(h, sh, x)
      ensures Anc(h, sh, y, x)
    {
      SubtreeAnc(h, sh, x, y);
    }
  }

  /** Cutting out the subtree of the child `x` of `q`, which sits at index
      `k` of the whole pre-order, cuts its block out of the pre-order. */
  lemma EraseAt<T>(h0: Heap<T>, sh0: Shape, r: NodeId, h3: Heap<T>, sh3: Shape, q: NodeId, i: nat, k: nat)
    requires Rooted(h0, sh0, To(r)) && WF(h3, sh3) && q in h0 && q in h3
    requires i < |sh0.kids[q]| && sh0.kids[q][i] in h0
    requires forall y | y in h0 && y != q && y !in Subtree(h0, sh0, sh0.kids[q][i]) :: Kept(h3, sh3, sh0, y)
    requires sh3.kids[q] == Without(sh0.kids[q], i)
    requires h3.Keys == h0.Keys - Elems(Subtree(h0, sh0, sh0.kids[q][i]))
    requires r in h3 && h3[r].parent == Null
    requires k < |Subtree(h0, sh0, r)| && Subtree(h0, sh0, r)[k] == sh0.kids[q][i]
    ensures Rooted(h3, sh3, To(r))
    ensures CutOut(Subtree(h0, sh0, r), Subtree(h3, sh3, r), k, |Subtree(h0, sh0, sh0.kids[q][i])|)
  {
    var idx, len := EraseBlock(h0, sh0, h3, sh3, q, i);
    RootAnc(h0, sh0, r, q);
    var o := Subtree(h0, sh0, r);
    var kq :| 0 <= kq < |o| && o[kq] == q;
    var s := Subtree(h0, sh0, q);
    ElemsSame(s[idx..idx + len], Subtree(h0, sh0, sh0.kids[q][i]));
    RemoveByBlock(h0, sh0, r, h3, sh3, q, idx, len, kq, k);
  }

  lemma ElemsSame(a: seq<NodeId>, b: seq<NodeId>)
    requires a == b
    ensures Elems(a) == Elems(b)
  {
  }

  lemma SliceHead(s: seq<NodeId>, i: nat, t: seq<NodeId>)
    requires |t| > 0 && i + |t| <= |s| && s[i..i + |t|] == t
    ensures s[i] == t[0]
  {
    assert s[i..i + |t|][0] == s[i];
  }

  // ---- freeing a detached subtree

  /** The shape of the nodes in `keys`. */
  ghost function Restrict(sh: Shape, keys: set<NodeId>): Shape
    requires keys <= sh.kids.Keys && keys <= sh.rank.Keys
  {
    Shape(map n | n in keys :: sh.kids[n], map n | n in keys :: sh.rank[n], sh.bound)
  }

  /** The subtree of a parentless node holds the parents and the children
      of its nodes. */
  lemma SubtreeClosed<T>(h: Heap<T>, sh: Shape, x: NodeId)
    requires WF(h, sh) && x in h && h[x].parent == Null
    ensures forall c | c in Subtree(h, sh, x) && h[c].parent.To? :: h[c].parent.id in Subtree(h, sh, x)
    ensures forall p, j | p in Subtree(h, sh, x) && 0 <= j < |sh.kids[p]| :: sh.kids[p][j] in Subtree(h, sh, x)
  {
    forall c | c in Subtree(h, sh, x) && h[c].parent.To?
      ensures h[c].parent.id in Subtree(h, sh, x)
    {
      SubtreeAnc(h, sh, x, c);
      assert ParentLink(h, sh, c);
      AncSubtree(h, sh, x, h[c].parent.id);
    }
    forall p, j | p in Subtree(h, sh, x) && 0 <= j < |sh.kids[p]|
      ensures sh.kids[p][j] in Subtree(h, sh, x)
    {
      KidInSubtree(h, sh, x, p, j);
    }
  }

  /** Freeing the whole subtree of a parentless node leaves a well-formed
      heap of the other nodes. */
  lemma RemoveDetachedWF<T>(h: Heap<T>, sh: Shape, x: NodeId)
    requires WF(h, sh) && x in h && h[x].parent == Null
    ensures (h - Elems(Subtree(h, sh, x))).Keys <= sh.kids.Keys
    ensures (h - Elems(Subtree(h, sh, x))).Keys <= sh.rank.Keys
    ensures WF(h - Elems(Subtree(h, sh, x)), Restrict(sh, (h - Elems(Subtree(h, sh, x))).Keys))
  {
    var E := Elems(Subtree(h, sh, x));
    var h' := h - E;
    var sh' := Restrict(sh, h'.Keys);
    SubtreeClosed(h, sh, x);
    forall n | n in h'
      ensures ChildList(h', n, sh'.kids[n])
    {
      var s := sh.kids[n];
      assert ChildList(h, n, s);
      forall i | 0 <= i < |s|
        ensures s[i] in h'
      {
        assert h[s[i]].parent == To(n);
      }
    }
    forall n | n in h'
      ensures ParentLink(h', sh', n)
    {
      assert ParentLink(h, sh, n);
      if h[n].parent.To? {
        var p := h[n].parent.id;
        var j :| 0 <= j < |sh.kids[p]| && sh.kids[p][j] == n;
        assert p in h';
      }
    }
  }

  /** `erase_subtree` on the child `x` of `q`: `h1`, `sh1` are the tree
      after `unlink_child`, and `h3`, `sh3` what is left once the subtree of
      `x` is freed.  What is left is well formed, keeps every node's child
      list but that of `q`, and has as many nodes fewer as the subtree of
      `x` has. */
  lemma EraseFrame<T>(h0: Heap<T>, sh0: Shape, r: NodeId, h1: Heap<T>, sh1: Shape, x: NodeId, q: NodeId,
                      i: nat, h3: Heap<T>, sh3: Shape)
    requires Rooted(h0, sh0, To(r)) && WF(h1, sh1) && x in h0 && h0[x].parent == To(q)
    requires q in h0 && i < |sh0.kids[q]| && sh0.kids[q][i] == x
    requires h1.Keys == h0.Keys && h1[x].parent == Null && h1[r].parent == Null
    requires sh1.kids == sh0.kids[q := Without(sh0.kids[q], i)]
    requires h3 == h1 - Elems(Subtree(h1, sh1, x))
    requires h3.Keys <= sh1.kids.Keys && h3.Keys <= sh1.rank.Keys && sh3 == Restrict(sh1, h3.Keys)
    ensures Subtree(h1, sh1, x) == Subtree(h0, sh0, x)
    ensures WF(h3, sh3) && r in h3 && h3[r].parent == Null
    ensures h3.Keys == h0.Keys - Elems(Subtree(h0, sh0, x))
    ensures |Subtree(h0, sh0, x)| <= |h0| && |h3| == |h0| - |Subtree(h0, sh0, x)|
    ensures RestrictKept(h0, sh0, h3, sh3, q, Subtree(h0, sh0, x), Without(sh0.kids[q], i))
  {
    var s := Subtree(h0, sh0, x);
    SubtreeKept(h0, sh0, h1, sh1, x, q);
    RemoveDetachedWF(h1, sh1, x);
    assert forall y | y in s :: y in h0 by {
      forall y | y in s
        ensures y in h0
      {
        SubtreeAnc(h0, sh0, x, y);
      }
    }
    SubtreeDistinct(h0, sh0, x);
    CutKeys(h0, h1, h3, s);
    RestrictKeeps(h0, sh0, h1, sh1, h3, sh3, q, s, Without(sh0.kids[q], i));
    RootOutside(h0, sh0, r, x);
  }

  /** What is left after `erase_subtree` on the child `x` of `q` at index
      `k` of the pre-order is a tree, and its pre-order is the old one with
      the block of `x` cut out. */
  lemma EraseOrder<T>(h0: Heap<T>, sh0: Shape, r: NodeId, h3: Heap<T>, sh3: Shape, q: NodeId, i: nat, k: nat)
    requires Rooted(h0, sh0, To(r)) && WF(h3, sh3) && q in h0 && i < |sh0.kids[q]|
    requires sh0.kids[q][i] in h0 && h0[sh0.kids[q][i]].parent == To(q)
    requires h3.Keys == h0.Keys - Elems(Subtree(h0, sh0, sh0.kids[q][i]))
    requires RestrictKept(h0, sh0, h3, sh3, q, Subtree(h0, sh0, sh0.kids[q][i]), Without(sh0.kids[q], i))
    requires r in h3 && h3[r].parent == Null
    requires k < |Subtree(h0, sh0, r)| && Subtree(h0, sh0, r)[k] == sh0.kids[q][i]
    ensures BlockAt(Subtree(h0, sh0, r), k, Subtree(h0, sh0, sh0.kids[q][i]))
    ensures Rooted(h3, sh3, To(r)) && q in h3
    ensures CutOut(Subtree(h0, sh0, r), Subtree(h3, sh3, r), k, |Subtree(h0, sh0, sh0.kids[q][i])|)
  {
    var x := sh0.kids[q][i];
    assert q in h3 by {
      assert q !in Subtree(h0, sh0, x) by {
        SubtreeKept(h0, sh0, h0, sh0, x, q);
      }
    }
    BlockOf(h0, sh0, r, x, k);
    EraseAt(h0, sh0, r, h3, sh3, q, i, k);
  }

  /** Freeing the subtree of `x` removes as many nodes as it has. */
  lemma FreeCount<T>(h: Heap<T>, sh: Shape, x: NodeId)
    requires WF(h, sh) && x in h
    ensures |Subtree(h, sh, x)| <= |h| && |h - Elems(Subtree(h, sh, x))| == |h| - |Subtree(h, sh, x)|
  {
    var s := Subtree(h, sh, x);
    forall y | y in s
      ensures y in h
    {
      SubtreeAnc(h, sh, x, y);
    }
    SubtreeDistinct(h, sh, x);
    CutKeys(h, h, h - Elems(s), s);
  }

  /** Freeing the distinct nodes `s` of a heap removes exactly their
      identities, as many as `s` is long. */
  lemma CutKeys<T>(h0: Heap<T>, h1: Heap<T>, h3: Heap<T>, s: seq<NodeId>)
    requires h1.Keys == h0.Keys && h3 == h1 - Elems(s) && Distinct(s)
    requires forall y | y in s :: y in h0
    ensures h3.Keys == h0.Keys - Elems(s)
    ensures |s| <= |h0| && |h3| == |h0| - |s|
  {
    var e := Elems(s);
    DistinctCard(s);
    assert h3.Keys == h0.Keys - e;
    SetCut(h0.Keys, e);
  }

  /** Taking a subset out of a set takes out as many elements. */
  lemma SetCut(a: set<NodeId>, e: set<NodeId>)
    requires e <= a
    ensures |a - e| == |a| - |e|
  {
    assert (a - e) + e == a && (a - e) !! e;
  }

  /** After the cut, every remaining node but `q` keeps its child list and
      `q` has the list `w`. */
  ghost predicate RestrictKept<T>(h0: Heap<T>, sh0: Shape, h3: Heap<T>, sh3: Shape, q: NodeId, s: seq<NodeId>,
                                  w: seq<NodeId>) {
    && (forall y | y in h0 && y != q && y !in s :: Kept(h3, sh3, sh0, y))
    && (q in h3 ==> q in sh3.kids && sh3.kids[q] == w)
  }

  lemma RestrictKeeps<T>(h0: Heap<T>, sh0: Shape, h1: Heap<T>, sh1: Shape, h3: Heap<T>, sh3: Shape,
                         q: NodeId, s: seq<NodeId>, w: seq<NodeId>)
    requires WF(h0, sh0) && WF(h1, sh1) && sh1.kids == sh0.kids[q := w]
    requires h3.Keys == h0.Keys - Elems(s)
    requires h3.Keys <= sh1.kids.Keys && h3.Keys <= sh1.rank.Keys && sh3 == Restrict(sh1, h3.Keys)
    ensures RestrictKept(h0, sh0, h3, sh3, q, s, w)
  {
    forall y | y in h0 && y != q && y !in s
      ensures Kept(h3, sh3, sh0, y)
    {
      assert y in h3.Keys;
    }
  }

  /** The child lists left by a cut are the old ones of the surviving nodes,
      with `w` for `q`. */
  lemma RestrictedKids(kids0: map<NodeId, seq<NodeId>>, q: NodeId, w: seq<NodeId>, sh1: Shape, keys: set<NodeId>)
    requires sh1.kids == kids0[q := w] && keys <= sh1.kids.Keys && keys <= sh1.rank.Keys
    ensures forall n | n in keys :: Restrict(sh1, keys).kids[n] == if n == q then w else kids0[n]
  {
  }

  // ---- the child lists after an insert

  /** Giving the fresh node `nw` its empty child list commutes with changing
      the list of another node. */
  lemma FreshKidsSwap(kids: map<NodeId, seq<NodeId>>, nw: NodeId, p: NodeId, a: seq<NodeId>)
    requires p != nw
    ensures kids[nw := []][p := a] == kids[p := a][nw := []]
  {
  }

  /** A later list for `nw` overrides its empty one. */
  lemma FreshKidsOverride(kids: map<NodeId, seq<NodeId>>, nw: NodeId, q: NodeId, a: seq<NodeId>, b: seq<NodeId>)
    ensures kids[nw := []][q := a][nw := b] == kids[q := a][nw := b]
  {
  }
}
